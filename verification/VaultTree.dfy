/** The vault's own note tree (contracts/FareVault.sol, `_insertLeaf`): one cached left
    sibling per level, empty right subtrees filled with the zero hashes.  The client
    rebuilds this tree from events and must arrive at the same root.  */
module VaultTree {
  import opened Poseidon
  import opened Powers
  import opened LeanImt
  import opened ShieldNotes
  import opened Wrappers

  /** The zero-padded tree of 2^lv slots that starts with `s`, split at its middle. */
  ghost function Padded(lv: nat, s: seq<Field>): Field
    requires |s| <= Pow2(lv)
  {
    if lv == 0 then if s == [] then ZERO else s[0]
    else
      var half := Pow2(lv - 1);
      if |s| <= half then Node(Padded(lv - 1, s), ZeroHash(lv - 1))
      else Node(Padded(lv - 1, s[..half]), Padded(lv - 1, s[half..]))
  }

  lemma {:induction false} PaddedEmpty(lv: nat)
    ensures Padded(lv, []) == ZeroHash(lv)
  {
    if lv > 0 {
      PaddedEmpty(lv - 1);
    }
  }

  /** What inserting `leaf` at `index` hashes up to level `lv`. */
  ghost function Spine(index: nat, filled: seq<Field>, leaf: Field, lv: nat): Field
    requires lv <= |filled|
  {
    if lv == 0 then leaf
    else
      var c := Spine(index, filled, leaf, lv - 1);
      if Bit(index, lv - 1) then Node(filled[lv - 1], c) else Node(c, ZeroHash(lv - 1))
  }

  ghost function Fill(index: nat, filled: seq<Field>, leaf: Field): (filled': seq<Field>)
    ensures |filled'| == |filled|
  {
    seq(|filled|, lv requires 0 <= lv < |filled| => if Bit(index, lv) then filled[lv] else Spine(index, filled, leaf, lv))
  }

  /** None stands for the revert on a full tree. */
  method InsertLeaf(filled: array<Field>, zeros: seq<Field>, nextIndex: nat, leaf: Field) returns (root: Option<Field>)
    requires filled.Length == NOTE_DEPTH <= |zeros|
    requires forall l :: 0 <= l < NOTE_DEPTH ==> zeros[l] == ZeroHash(l)
    modifies filled
    ensures root == if nextIndex < Pow2(NOTE_DEPTH) then Some(Spine(nextIndex, old(filled[..]), leaf, NOTE_DEPTH)) else None
    ensures filled[..] == if nextIndex < Pow2(NOTE_DEPTH) then Fill(nextIndex, old(filled[..]), leaf) else old(filled[..])
  {
    hide ZeroHash;
    if nextIndex >= Pow2(NOTE_DEPTH) {
      return None;
    }
    var current, idx := leaf, nextIndex;
    ghost var was := filled[..];
    for i := 0 to NOTE_DEPTH
      invariant idx == Up(nextIndex, i) && current == Spine(nextIndex, was, leaf, i)
      invariant forall l :: 0 <= l < i ==> filled[l] == Fill(nextIndex, was, leaf)[l]
      invariant forall l :: i <= l < NOTE_DEPTH ==> filled[l] == was[l]
    {
      UpDivides(nextIndex, i);
      var left, right;
      if idx % 2 == 0 {
        left, right := current, zeros[i];
        filled[i] := current;
      } else {
        left, right := filled[i], current;
      }
      current := Node(left, right);
      idx := idx / 2;
    }
    root := Some(current);
  }

  /** Cached left siblings after inserting `leaves` into a tree whose cache held `initial`. */
  ghost function FilledAfter(initial: seq<Field>, leaves: seq<Field>): (filled: seq<Field>)
    ensures |filled| == |initial|
  {
    if leaves == [] then initial
    else
      var n := |leaves| - 1;
      Fill(n, FilledAfter(initial, leaves[..n]), leaves[n])
  }

  ghost function VaultRoot(initial: seq<Field>, leaves: seq<Field>): Field
    requires leaves != []
  {
    var n := |leaves| - 1;
    Spine(n, FilledAfter(initial, leaves[..n]), leaves[n], |initial|)
  }

  ghost predicate LeftFilled(lv: nat, filled: seq<Field>, s: seq<Field>)
    requires lv <= |filled| && |s| < Pow2(lv)
  {
    lv == 0 ||
    var half := Pow2(lv - 1);
    if |s| >= half then filled[lv - 1] == Padded(lv - 1, s[..half]) && LeftFilled(lv - 1, filled, s[half..])
    else LeftFilled(lv - 1, filled, s)
  }

  lemma {:induction false} LeftFilledEmpty(lv: nat, filled: seq<Field>)
    requires lv <= |filled|
    ensures LeftFilled(lv, filled, [])
  {
    if lv > 0 {
      LeftFilledEmpty(lv - 1, filled);
    }
  }

  lemma {:induction false} FillStep(lv: nat, filled: seq<Field>, s: seq<Field>, leaf: Field, i: nat)
    requires lv <= |filled| && |s| < Pow2(lv) && LeftFilled(lv, filled, s) && SameBits(i, |s|, lv)
    ensures Spine(i, filled, leaf, lv) == Padded(lv, s + [leaf])
    ensures |s| + 1 < Pow2(lv) ==> LeftFilled(lv, Fill(i, filled, leaf), s + [leaf])
  {
    if lv > 0 {
      var half := Pow2(lv - 1);
      var s' := s + [leaf];
      HalfBits(i, |s|, lv);
      if |s| >= half {
        FillStep(lv - 1, filled, s[half..], leaf, i);
        assert s'[..half] == s[..half];
        assert s'[half..] == s[half..] + [leaf];
      } else {
        FillStep(lv - 1, filled, s, leaf, i);
        if |s'| == half {
          assert s'[..half] == s' && s'[half..] == [];
          LeftFilledEmpty(lv - 1, Fill(i, filled, leaf));
        }
      }
    }
  }

  lemma {:induction false} FilledInvariant(initial: seq<Field>, leaves: seq<Field>)
    requires |leaves| < Pow2(|initial|)
    ensures LeftFilled(|initial|, FilledAfter(initial, leaves), leaves)
  {
    if leaves == [] {
      LeftFilledEmpty(|initial|, initial);
    } else {
      var n := |leaves| - 1;
      FilledInvariant(initial, leaves[..n]);
      FillStep(|initial|, FilledAfter(initial, leaves[..n]), leaves[..n], leaves[n], n);
      assert leaves[..n] + [leaves[n]] == leaves;
    }
  }

  /** Slots [base, base + 2^lv), empty past the end. */
  ghost function Slots(leaves: seq<Field>, base: nat, lv: nat): (s: seq<Field>)
    ensures |s| <= Pow2(lv)
  {
    if base >= |leaves| then []
    else if base + Pow2(lv) <= |leaves| then leaves[base..base + Pow2(lv)]
    else leaves[base..]
  }

  lemma SlotHalves(leaves: seq<Field>, base: nat, lv: nat)
    requires lv > 0
    ensures |Slots(leaves, base, lv)| <= Pow2(lv - 1) ==>
      && Slots(leaves, base, lv - 1) == Slots(leaves, base, lv)
      && Slots(leaves, base + Pow2(lv - 1), lv - 1) == []
    ensures |Slots(leaves, base, lv)| > Pow2(lv - 1) ==>
      && Slots(leaves, base, lv - 1) == Slots(leaves, base, lv)[..Pow2(lv - 1)]
      && Slots(leaves, base + Pow2(lv - 1), lv - 1) == Slots(leaves, base, lv)[Pow2(lv - 1)..]
  {
  }

  lemma {:induction false} PaddedHalves(leaves: seq<Field>, base: nat, lv: nat)
    requires lv > 0
    ensures Padded(lv, Slots(leaves, base, lv))
         == Node(Padded(lv - 1, Slots(leaves, base, lv - 1)), Padded(lv - 1, Slots(leaves, base + Pow2(lv - 1), lv - 1)))
  {
    hide Slots;
    SlotHalves(leaves, base, lv);
    PaddedEmpty(lv - 1);
  }

  lemma {:induction false} FullFrom(leaves: seq<Field>, lv: nat, index: nat, base: nat)
    requires base == index * Pow2(lv)
    ensures Full(leaves, lv, index) == Padded(lv, Slots(leaves, base, lv))
  {
    if lv > 0 {
      HalfWidth(lv, index);
      hide Padded, Slots, Pow2;
      FullFrom(leaves, lv - 1, 2 * index, base);
      FullFrom(leaves, lv - 1, 2 * index + 1, base + Pow2(lv - 1));
      PaddedHalves(leaves, base, lv);
    }
  }

  lemma {:induction false} FullIsPadded(leaves: seq<Field>, lv: nat, index: nat)
    ensures Full(leaves, lv, index) == Padded(lv, Slots(leaves, index * Pow2(lv), lv))
  {
    FullFrom(leaves, lv, index, index * Pow2(lv));
  }

  /** After any inserts, from any initial cache, the vault's root is the client's. */
  lemma {:induction false} ClientMatchesVault(initial: seq<Field>, leaves: seq<Field>)
    requires |initial| == NOTE_DEPTH && 0 < |leaves| <= Pow2(NOTE_DEPTH)
    ensures VaultRoot(initial, leaves) == Full(leaves, NOTE_DEPTH, 0)
  {
    hide Full, Padded, Spine, Pow2, LeftFilled, FilledAfter, Fill;
    var n := |leaves| - 1;
    FilledInvariant(initial, leaves[..n]);
    FillStep(NOTE_DEPTH, FilledAfter(initial, leaves[..n]), leaves[..n], leaves[n], n);
    assert leaves[..n] + [leaves[n]] == leaves;
    FullIsPadded(leaves, NOTE_DEPTH, 0);
    assert Slots(leaves, 0, NOTE_DEPTH) == leaves;
  }
}
