/** The pool's Merkle tree, a LeanIMT: parent = Poseidon(left, right), and a
    child with no sibling is promoted unchanged.  Three descriptions of one tree:
    recursive (`Root`), incremental (`Insert`, `Climb`) and layer by layer
    (`LayeredRoot`, `LayeredProof`).  */
module LeanImt {
  import opened Poseidon
  import opened Powers

  // ---- the tree as a function of its leaves -------------------------------

  /** Root of a subtree of 2^lv slots whose first |s| slots hold `s`. */
  function Root(lv: nat, s: seq<Field>): Field
    requires 0 < |s| <= Pow2(lv)
  {
    if lv == 0 then s[0]
    else
      var half := Pow2(lv - 1);
      if |s| <= half then Root(lv - 1, s)
      else Node(Root(lv - 1, s[..half]), Root(lv - 1, s[half..]))
  }

  /** The sibling of leaf `r` at each level, bottom first; ZERO where there is none. */
  function Siblings(lv: nat, s: seq<Field>, r: nat): (sibs: seq<Field>)
    requires r < |s| <= Pow2(lv)
    ensures |sibs| == lv
  {
    if lv == 0 then []
    else
      var half := Pow2(lv - 1);
      if r >= half then Siblings(lv - 1, s[half..], r - half) + [Root(lv - 1, s[..half])]
      else if |s| > half then Siblings(lv - 1, s[..half], r) + [Root(lv - 1, s[half..])]
      else Siblings(lv - 1, s, r) + [ZERO]
  }

  lemma {:induction false} RootStep(lv: nat, s: seq<Field>)
    requires lv > 0 && 0 < |s| <= Pow2(lv)
    ensures |s| <= Pow2(lv - 1) ==> Root(lv, s) == Root(lv - 1, s)
    ensures |s| > Pow2(lv - 1) ==>
      Root(lv, s) == Node(Root(lv - 1, s[..Pow2(lv - 1)]), Root(lv - 1, s[Pow2(lv - 1)..]))
  {
  }

  lemma {:induction false} SiblingsStep(lv: nat, s: seq<Field>, r: nat)
    requires lv > 0 && r < |s| <= Pow2(lv)
    ensures var half := Pow2(lv - 1);
      && (r >= half ==> Siblings(lv, s, r) == Siblings(lv - 1, s[half..], r - half) + [Root(lv - 1, s[..half])])
      && (r < half < |s| ==> Siblings(lv, s, r) == Siblings(lv - 1, s[..half], r) + [Root(lv - 1, s[half..])])
      && (|s| <= half ==> Siblings(lv, s, r) == Siblings(lv - 1, s, r) + [ZERO])
  {
  }

  lemma {:induction false} RootNonZero(lv: nat, s: seq<Field>)
    requires 0 < |s| <= Pow2(lv) && NonZero(s)
    ensures Root(lv, s) != ZERO
  {
    if lv > 0 && |s| <= Pow2(lv - 1) {
      RootNonZero(lv - 1, s);
    }
  }

  /** Two leaves hash left to right, a third waits for its sibling. */
  lemma {:induction false} SmallRoots(a: Field, b: Field, c: Field)
    ensures Root(1, [a, b]) == Node(a, b) && Root(2, [a, b, c]) == Node(Node(a, b), c)
  {
    assert [a, b][..1] == [a] && [a, b][1..] == [b];
    assert [a, b, c][..2] == [a, b] && [a, b, c][2..] == [c];
    assert Pow2(1) == 2 && Root(1, [a, b]) == Node(Root(0, [a]), Root(0, [b]));
    assert Root(1, [c]) == Root(0, [c]);
  }

  // ---- folding a path -----------------------------------------------------

  /** One level of the fold: a ZERO sibling leaves the node as it is. */
  function FoldStep(right: bool, sibling: Field, node: Field): Field {
    if sibling == ZERO then node
    else if right then Node(sibling, node) else Node(node, sibling)
  }

  function Fold(leaf: Field, index: nat, siblings: seq<Field>, lv: nat): Field
    requires lv <= |siblings|
  {
    if lv == 0 then leaf
    else FoldStep(Bit(index, lv - 1), siblings[lv - 1], Fold(leaf, index, siblings, lv - 1))
  }

  ghost predicate SameBits(i: nat, r: nat, lv: nat) {
    forall l :: 0 <= l < lv ==> Bit(i, l) == Bit(r, l)
  }

  lemma {:induction false} FoldPrefix(leaf: Field, i: nat, a: seq<Field>, b: seq<Field>, lv: nat)
    requires lv <= |a| && lv <= |b| && a[..lv] == b[..lv]
    ensures Fold(leaf, i, a, lv) == Fold(leaf, i, b, lv)
  {
    if lv > 0 {
      assert a[..lv - 1] == a[..lv][..lv - 1];
      assert b[..lv - 1] == b[..lv][..lv - 1];
      assert a[lv - 1] == a[..lv][lv - 1] && b[lv - 1] == b[..lv][lv - 1];
      FoldPrefix(leaf, i, a, b, lv - 1);
    }
  }

  /** The bits of `r` within the upper half, and the top bit. */
  lemma HalfBits(i: nat, r: nat, lv: nat)
    requires lv > 0 && r < Pow2(lv) && SameBits(i, r, lv)
    ensures Bit(i, lv - 1) <==> r >= Pow2(lv - 1)
    ensures r >= Pow2(lv - 1) ==> SameBits(i, r - Pow2(lv - 1), lv - 1)
    ensures SameBits(i, r, lv - 1)
  {
    TopBit(r, lv);
    if r >= Pow2(lv - 1) {
      LowBits(r - Pow2(lv - 1), lv - 1);
    }
  }

  lemma {:induction false} FoldTop(leaf: Field, i: nat, lower: seq<Field>, top: Field)
    ensures Fold(leaf, i, lower + [top], |lower| + 1)
         == FoldStep(Bit(i, |lower|), top, Fold(leaf, i, lower, |lower|))
  {
    assert (lower + [top])[..|lower|] == lower[..|lower|];
    FoldPrefix(leaf, i, lower + [top], lower, |lower|);
  }

  /** The top level of the tree: leaf `r` of `s` is leaf `q` of one half, or of all of `s`
      when nothing is in the upper half; `top` is its sibling there. */
  lemma {:induction false} TopLevel(lv: nat, s: seq<Field>, r: nat) returns (half: seq<Field>, q: nat, top: Field)
    requires lv > 0 && r < |s| <= Pow2(lv) && NonZero(s)
    ensures q < |half| <= Pow2(lv - 1) && half[q] == s[r] && NonZero(half)
    ensures q == if r >= Pow2(lv - 1) then r - Pow2(lv - 1) else r
    ensures Siblings(lv, s, r) == Siblings(lv - 1, half, q) + [top]
    ensures Root(lv, s) == FoldStep(r >= Pow2(lv - 1), top, Root(lv - 1, half))
  {
    hide Siblings, Root, Pow2;
    Pow2Step(lv);
    SiblingsStep(lv, s, r);
    RootStep(lv, s);
    var m := Pow2(lv - 1);
    if r >= m {
      half, q, top := s[m..], r - m, Root(lv - 1, s[..m]);
      RootNonZero(lv - 1, s[..m]);
    } else if |s| > m {
      half, q, top := s[..m], r, Root(lv - 1, s[m..]);
      RootNonZero(lv - 1, s[m..]);
    } else {
      half, q, top := s, r, ZERO;
    }
  }

  /** Folding a leaf with its siblings gives the root. */
  lemma {:induction false} FoldSiblings(lv: nat, s: seq<Field>, r: nat, i: nat)
    requires r < |s| <= Pow2(lv) && NonZero(s) && SameBits(i, r, lv)
    ensures Fold(s[r], i, Siblings(lv, s, r), lv) == Root(lv, s)
  {
    if lv > 0 {
      hide Fold, Siblings, Root, Bit;
      HalfBits(i, r, lv);
      var half, q, top := TopLevel(lv, s, r);
      FoldSiblings(lv - 1, half, q, i);
      FoldTop(s[r], i, Siblings(lv - 1, half, q), top);
    }
  }

  // ---- incremental insertion ----------------------------------------------

  /** The node that inserting `leaf` at `i` carries up to level `lv`. */
  function Climb(i: nat, side: seq<Field>, leaf: Field, lv: nat): Field
    requires lv <= |side|
  {
    if lv == 0 then leaf
    else
      var c := Climb(i, side, leaf, lv - 1);
      if Bit(i, lv - 1) && side[lv - 1] != ZERO then Node(side[lv - 1], c) else c
  }

  /** The side nodes after that insert: only the bit-clear levels are written. */
  function Insert(i: nat, side: seq<Field>, leaf: Field): (side': seq<Field>)
    ensures |side'| == |side|
  {
    seq(|side|, lv requires 0 <= lv < |side| => if Bit(i, lv) then side[lv] else Climb(i, side, leaf, lv))
  }

  /** Side nodes of the pool after it inserted `leaves` one by one. */
  function SideAfter(depth: nat, leaves: seq<Field>): (side: seq<Field>)
    ensures |side| == depth
  {
    if leaves == [] then seq(depth, _ => ZERO)
    else
      var n := |leaves| - 1;
      Insert(n, SideAfter(depth, leaves[..n]), leaves[n])
  }

  /** The root the pool publishes: the node its last insert ended with. */
  function LiveRoot(depth: nat, leaves: seq<Field>): Field
    requires leaves != []
  {
    var n := |leaves| - 1;
    Climb(n, SideAfter(depth, leaves[..n]), leaves[n], depth)
  }

  /** At every set bit of |s|, `side` holds the root of the complete block to the left. */
  ghost predicate LeftRoots(lv: nat, side: seq<Field>, s: seq<Field>)
    requires lv <= |side| && |s| < Pow2(lv)
  {
    lv == 0 ||
    var half := Pow2(lv - 1);
    if |s| >= half then side[lv - 1] == Root(lv - 1, s[..half]) && LeftRoots(lv - 1, side, s[half..])
    else LeftRoots(lv - 1, side, s)
  }

  lemma {:induction false} LeftRootsEmpty(lv: nat, side: seq<Field>)
    requires lv <= |side|
    ensures LeftRoots(lv, side, [])
  {
    if lv > 0 {
      LeftRootsEmpty(lv - 1, side);
    }
  }

  /** An insert ends with the new root and keeps the side nodes right. */
  lemma {:induction false} InsertStep(lv: nat, side: seq<Field>, s: seq<Field>, leaf: Field, i: nat)
    requires lv <= |side| && |s| < Pow2(lv) && LeftRoots(lv, side, s)
    requires NonZero(s) && SameBits(i, |s|, lv)
    ensures Climb(i, side, leaf, lv) == Root(lv, s + [leaf])
    ensures |s| + 1 < Pow2(lv) ==> LeftRoots(lv, Insert(i, side, leaf), s + [leaf])
  {
    if lv > 0 {
      var half := Pow2(lv - 1);
      var s' := s + [leaf];
      HalfBits(i, |s|, lv);
      if |s| >= half {
        RootNonZero(lv - 1, s[..half]);
        InsertStep(lv - 1, side, s[half..], leaf, i);
        assert s'[..half] == s[..half];
        assert s'[half..] == s[half..] + [leaf];
      } else {
        InsertStep(lv - 1, side, s, leaf, i);
        if |s'| == half {
          assert s'[..half] == s' && s'[half..] == [];
          LeftRootsEmpty(lv - 1, Insert(i, side, leaf));
        }
      }
    }
  }

  /** Before every insert the side nodes at the set bits are the left sibling roots. */
  lemma {:induction false} SideInvariant(depth: nat, leaves: seq<Field>)
    requires NonZero(leaves) && |leaves| < Pow2(depth)
    ensures LeftRoots(depth, SideAfter(depth, leaves), leaves)
  {
    if leaves == [] {
      LeftRootsEmpty(depth, SideAfter(depth, []));
    } else {
      var n := |leaves| - 1;
      SideInvariant(depth, leaves[..n]);
      InsertStep(depth, SideAfter(depth, leaves[..n]), leaves[..n], leaves[n], n);
      assert leaves[..n] + [leaves[n]] == leaves;
    }
  }

  /** The incremental tree refines the recursive one. */
  lemma {:induction false} LiveRootIsRoot(depth: nat, leaves: seq<Field>)
    requires NonZero(leaves) && 0 < |leaves| <= Pow2(depth)
    ensures LiveRoot(depth, leaves) == Root(depth, leaves)
  {
    var n := |leaves| - 1;
    SideInvariant(depth, leaves[..n]);
    InsertStep(depth, SideAfter(depth, leaves[..n]), leaves[..n], leaves[n], n);
    assert leaves[..n] + [leaves[n]] == leaves;
  }

  // ---- what the side nodes say about later trees --------------------------

  /** A side node at a set bit of the index is the left sibling in every larger tree. */
  lemma {:induction false} CapturedForever(lv: nat, side: seq<Field>, s: seq<Field>, r: nat, i: nat)
    requires lv <= |side| && r < |s| <= Pow2(lv) && SameBits(i, r, lv)
    requires LeftRoots(lv, side, s[..r])
    ensures forall l :: 0 <= l < lv && Bit(i, l) ==> side[l] == Siblings(lv, s, r)[l]
  {
    if lv > 0 {
      var half := Pow2(lv - 1);
      HalfBits(i, r, lv);
      if r >= half {
        assert s[..r][..half] == s[..half];
        assert s[..r][half..] == s[half..][..r - half];
        CapturedForever(lv - 1, side, s[half..], r - half, i);
      } else if |s| > half {
        assert s[..half][..r] == s[..r];
        CapturedForever(lv - 1, side, s[..half], r, i);
      } else {
        CapturedForever(lv - 1, side, s, r, i);
      }
    }
  }

  // ---- the layer-by-layer description -------------------------------------

  /** The layer above: neighbours are hashed, a last odd one out is promoted. */
  function PairUp(s: seq<Field>): (p: seq<Field>)
    ensures |s| <= 2 * |p| <= |s| + 1
  {
    if |s| <= 1 then s else [Node(s[0], s[1])] + PairUp(s[2..])
  }

  function LayeredRoot(lv: nat, layer: seq<Field>): Field
    requires 0 < |layer| <= Pow2(lv)
  {
    if lv == 0 then layer[0] else LayeredRoot(lv - 1, PairUp(layer))
  }

  /** The other child of pair `q`, seen from its right or its left child. */
  function Other(layer: seq<Field>, q: nat, right: bool): Field {
    var si := if right then 2 * q else 2 * q + 1;
    if si < |layer| then layer[si] else ZERO
  }

  function Neighbour(layer: seq<Field>, idx: nat): Field {
    var si := if idx % 2 == 0 then idx + 1 else idx - 1;
    if si < |layer| then layer[si] else ZERO
  }

  function LayeredProof(lv: nat, layer: seq<Field>, idx: nat): seq<Field> {
    if lv == 0 then [] else [Neighbour(layer, idx)] + LayeredProof(lv - 1, PairUp(layer), idx / 2)
  }

  lemma {:induction false} PairUpConcat(lo: seq<Field>, hi: seq<Field>)
    requires |lo| % 2 == 0
    ensures PairUp(lo + hi) == PairUp(lo) + PairUp(hi)
  {
    if lo == [] {
      assert lo + hi == hi;
    } else {
      assert (lo + hi)[2..] == lo[2..] + hi;
      PairUpConcat(lo[2..], hi);
    }
  }

  lemma {:induction false} RootOfConcat(lv: nat, lo: seq<Field>, hi: seq<Field>)
    requires lv > 0 && |lo| == Pow2(lv - 1) && 0 < |hi| <= Pow2(lv - 1)
    ensures Root(lv, lo + hi) == Node(Root(lv - 1, lo), Root(lv - 1, hi))
  {
    assert (lo + hi)[..|lo|] == lo && (lo + hi)[|lo|..] == hi;
  }

  /** The arithmetic of a step: both halves pair up to half their size. */
  lemma PairedHalves(lv: nat, lo: seq<Field>, hi: seq<Field>)
    requires lv > 1 && |lo| == Pow2(lv - 1) && 0 < |hi| <= Pow2(lv - 1)
    ensures |lo| == 2 * Pow2(lv - 2) && |PairUp(lo)| == Pow2(lv - 2)
    ensures 0 < |PairUp(hi)| <= Pow2(lv - 2) && PairUp(lo + hi) == PairUp(lo) + PairUp(hi)
  {
    Pow2Step(lv - 1);
    hide PairUp, Pow2;
    PairUpConcat(lo, hi);
  }

  lemma {:induction false} RootPairUp(lv: nat, s: seq<Field>)
    requires lv > 0 && 0 < |s| <= Pow2(lv)
    ensures Root(lv, s) == Root(lv - 1, PairUp(s))
    decreases lv, 1
  {
    if lv == 1 {
      if |s| == 2 {
        assert s[..1] == [s[0]] && s[1..] == [s[1]];
      }
    } else if |s| <= Pow2(lv - 1) {
      RootPairUp(lv - 1, s);
    } else {
      RootPairUpHalves(lv, s[..Pow2(lv - 1)], s[Pow2(lv - 1)..]);
      assert s == s[..Pow2(lv - 1)] + s[Pow2(lv - 1)..];
    }
  }

  lemma {:induction false} RootPairUpHalves(lv: nat, lo: seq<Field>, hi: seq<Field>)
    requires lv > 1 && |lo| == Pow2(lv - 1) && 0 < |hi| <= |lo|
    ensures Root(lv, lo + hi) == Root(lv - 1, PairUp(lo + hi))
    decreases lv, 0
  {
    hide Root, PairUp, Pow2;
    PairedHalves(lv, lo, hi);
    RootOfConcat(lv, lo, hi);
    RootPairUp(lv - 1, lo);
    RootPairUp(lv - 1, hi);
    RootOfConcat(lv - 1, PairUp(lo), PairUp(hi));
  }

  /** The index of the left or right child of pair `q`. */
  function Child(q: nat, right: bool): nat {
    if right then 2 * q + 1 else 2 * q
  }

  lemma OtherInHalf(lo: seq<Field>, hi: seq<Field>, m: nat, q: nat, right: bool)
    requires |lo| == 2 * m
    ensures q < m ==> Other(lo + hi, q, right) == Other(lo, q, right)
    ensures q >= m ==> Other(lo + hi, q, right) == Other(hi, q - m, right)
  {
  }

  lemma {:induction false} SiblingsOfConcat(lv: nat, lo: seq<Field>, hi: seq<Field>, r: nat)
    requires lv > 0 && |lo| == Pow2(lv - 1) && 0 < |hi| <= Pow2(lv - 1) && r < |lo| + |hi|
    ensures r >= |lo| ==> Siblings(lv, lo + hi, r) == Siblings(lv - 1, hi, r - |lo|) + [Root(lv - 1, lo)]
    ensures r < |lo| ==> Siblings(lv, lo + hi, r) == Siblings(lv - 1, lo, r) + [Root(lv - 1, hi)]
  {
    assert (lo + hi)[..|lo|] == lo && (lo + hi)[|lo|..] == hi;
  }

  lemma {:induction false} SiblingsPairUpOne(s: seq<Field>, q: nat, right: bool)
    requires Child(q, right) < |s| <= 2
    ensures Siblings(1, s, Child(q, right)) == [Other(s, q, right)] + Siblings(0, PairUp(s), q)
  {
    if |s| == 2 {
      assert s[..1] == [s[0]] && s[1..] == [s[1]];
    }
  }

  lemma {:induction false} SiblingsPairUpLone(lv: nat, s: seq<Field>, q: nat, right: bool)
    requires lv > 1 && Child(q, right) < |s| <= Pow2(lv - 1)
    requires Siblings(lv - 1, s, Child(q, right)) == [Other(s, q, right)] + Siblings(lv - 2, PairUp(s), q)
    ensures Siblings(lv, s, Child(q, right)) == [Other(s, q, right)] + Siblings(lv - 1, PairUp(s), q)
  {
    hide Siblings, PairUp, Other, Pow2, Root;
    Pow2Step(lv - 1);
    Pow2Step(lv);
    SiblingsStep(lv, s, Child(q, right));
    SiblingsStep(lv - 1, PairUp(s), q);
    OnTop(Siblings(lv - 1, s, Child(q, right)), Other(s, q, right), Siblings(lv - 2, PairUp(s), q), ZERO);
  }

  lemma {:induction false} SiblingsPairUp(lv: nat, s: seq<Field>, q: nat, right: bool)
    requires lv > 0 && Child(q, right) < |s| <= Pow2(lv)
    ensures Siblings(lv, s, Child(q, right)) == [Other(s, q, right)] + Siblings(lv - 1, PairUp(s), q)
    decreases lv, 1
  {
    hide Siblings, PairUp, Other;
    if lv == 1 {
      SiblingsPairUpOne(s, q, right);
    } else if |s| <= Pow2(lv - 1) {
      SiblingsPairUp(lv - 1, s, q, right);
      SiblingsPairUpLone(lv, s, q, right);
    } else {
      SiblingsPairUpHalves(lv, s[..Pow2(lv - 1)], s[Pow2(lv - 1)..], q, right);
      assert s == s[..Pow2(lv - 1)] + s[Pow2(lv - 1)..];
    }
  }

  lemma {:induction false} SiblingsPairUpHalves(lv: nat, lo: seq<Field>, hi: seq<Field>, q: nat, right: bool)
    requires lv > 1 && |lo| == Pow2(lv - 1) && 0 < |hi| <= |lo| && Child(q, right) < |lo| + |hi|
    ensures Siblings(lv, lo + hi, Child(q, right)) == [Other(lo + hi, q, right)] + Siblings(lv - 1, PairUp(lo + hi), q)
    decreases lv, 0
  {
    hide Siblings, Root;
    if q >= Pow2(lv - 2) {
      SiblingsPairUp(lv - 1, hi, q - Pow2(lv - 2), right);
      StepHigh(lv, lo, hi, q - Pow2(lv - 2), right);
    } else {
      SiblingsPairUp(lv - 1, lo, q, right);
      StepLow(lv, lo, hi, q, right);
    }
  }

  /** Putting one more sibling on top of a path that is known from its second level on. */
  lemma OnTop(path: seq<Field>, first: Field, rest: seq<Field>, top: Field)
    requires path == [first] + rest
    ensures path + [top] == [first] + (rest + [top])
  {
  }

  lemma {:induction false} StepHigh(lv: nat, lo: seq<Field>, hi: seq<Field>, q: nat, right: bool)
    requires lv > 1 && |lo| == Pow2(lv - 1) && Child(q, right) < |hi| <= Pow2(lv - 1)
    requires Siblings(lv - 1, hi, Child(q, right)) == [Other(hi, q, right)] + Siblings(lv - 2, PairUp(hi), q)
    ensures Siblings(lv, lo + hi, Child(q + Pow2(lv - 2), right))
         == [Other(lo + hi, q + Pow2(lv - 2), right)] + Siblings(lv - 1, PairUp(lo + hi), q + Pow2(lv - 2))
  {
    hide Siblings, Root, PairUp, Other, Pow2;
    var quarter := Pow2(lv - 2);
    PairedHalves(lv, lo, hi);
    assert Child(q + quarter, right) == |lo| + Child(q, right);
    assert q < |PairUp(hi)|;
    SiblingsOfConcat(lv, lo, hi, Child(q + quarter, right));
    SiblingsOfConcat(lv - 1, PairUp(lo), PairUp(hi), q + quarter);
    RootPairUp(lv - 1, lo);
    OtherInHalf(lo, hi, quarter, q + quarter, right);
    OnTop(Siblings(lv - 1, hi, Child(q, right)), Other(hi, q, right), Siblings(lv - 2, PairUp(hi), q), Root(lv - 1, lo));
  }

  lemma {:induction false} StepLow(lv: nat, lo: seq<Field>, hi: seq<Field>, q: nat, right: bool)
    requires lv > 1 && |lo| == Pow2(lv - 1) && 0 < |hi| <= Pow2(lv - 1) && q < Pow2(lv - 2)
    requires Siblings(lv - 1, lo, Child(q, right)) == [Other(lo, q, right)] + Siblings(lv - 2, PairUp(lo), q)
    ensures Siblings(lv, lo + hi, Child(q, right)) == [Other(lo + hi, q, right)] + Siblings(lv - 1, PairUp(lo + hi), q)
  {
    hide Siblings, Root, PairUp, Other, Pow2;
    PairedHalves(lv, lo, hi);
    assert Child(q, right) < |lo|;
    SiblingsOfConcat(lv, lo, hi, Child(q, right));
    SiblingsOfConcat(lv - 1, PairUp(lo), PairUp(hi), q);
    RootPairUp(lv - 1, hi);
    OtherInHalf(lo, hi, Pow2(lv - 2), q, right);
    OnTop(Siblings(lv - 1, lo, Child(q, right)), Other(lo, q, right), Siblings(lv - 2, PairUp(lo), q), Root(lv - 1, hi));
  }

  /** The recursive tree and the layered tree have one root and one path per leaf. */
  lemma {:induction false} LayersAgree(lv: nat, s: seq<Field>, r: nat)
    requires r < |s| <= Pow2(lv)
    ensures Root(lv, s) == LayeredRoot(lv, s)
    ensures Siblings(lv, s, r) == LayeredProof(lv, s, r)
  {
    if lv > 0 {
      OneLayerUp(lv, s, r);
      LayersAgree(lv - 1, PairUp(s), r / 2);
    }
  }

  lemma OneLayerUp(lv: nat, s: seq<Field>, r: nat)
    requires lv > 0 && r < |s| <= Pow2(lv)
    ensures r / 2 < |PairUp(s)| <= Pow2(lv - 1)
    ensures Root(lv, s) == Root(lv - 1, PairUp(s))
    ensures Siblings(lv, s, r) == [Neighbour(s, r)] + Siblings(lv - 1, PairUp(s), r / 2)
  {
    hide Siblings, Root;
    var q, right := r / 2, r % 2 == 1;
    assert Child(q, right) == r;
    assert Other(s, q, right) == Neighbour(s, r);
    RootPairUp(lv, s);
    SiblingsPairUp(lv, s, q, right);
  }
}
