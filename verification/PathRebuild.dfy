/** Rebuilding a note's path from scanned leaves (web/src/shieldpool.ts, the second half of
    `reconstructPath`): anchoring on the note's own commitment, and the self-check against
    the live root.  */
module PathRebuild {
  import opened Poseidon
  import opened Powers
  import opened LeanImt
  import opened ShieldPool
  import opened Wrappers

  datatype NoteRecord = NoteRecord(note: Note, path: NotePath, depositBlock: nat)

  datatype ScanError = LogsFailed | NotFound | RootMismatch

  // ---- anchoring and self-check -------------------------------------------

  function FirstIndex(scan: seq<Field>, x: Field): (k: nat)
    requires x in scan
    ensures k < |scan| && scan[k] == x && x !in scan[..k]
  {
    if scan[0] == x then 0 else
      var k := FirstIndex(scan[1..], x) + 1;
      assert scan[..k] == [scan[0]] + scan[1..][..k - 1];
      k
  }

  /** The sparse leaf map that holds `s` from slot `index` on. */
  ghost function RightLeaves(index: nat, s: seq<Field>): (m: map<nat, Field>)
    ensures forall j :: j in m <==> index <= j < index + |s|
    ensures forall j :: j in m ==> m[j] == s[j - index]
  {
    if s == [] then map[]
    else RightLeaves(index, s[..|s| - 1])[index + |s| - 1 := s[|s| - 1]]
  }

  /** The path stitched from a record and the leaves from its own on. */
  ghost function PathFrom(path: NotePath, s: seq<Field>): (siblings: seq<Field>)
    ensures |siblings| == DEPTH
  {
    PathOf(DEPTH, path.index, path.leftSnapshot, RightLeaves(path.index, s), path.index + |s| - 1)
  }

  /** What a scan yields, as a function of the scanned leaves. */
  ghost function Reconstruct(record: NoteRecord, scan: seq<Field>, root: Field): (r: Result<seq<Field>, ScanError>)
    ensures r != Err(LogsFailed)
  {
    var commit := record.note.Commitment();
    if commit !in scan then Err(NotFound)
    else
      var siblings := PathFrom(record.path, scan[FirstIndex(scan, commit)..]);
      if Fold(commit, record.path.index, siblings, DEPTH) == root then Ok(siblings) else Err(RootMismatch)
  }

  lemma {:induction false} RightLeavesNone(index: nat)
    ensures RightLeaves(index, []) == map[]
  {
  }

  lemma {:induction false} RightLeavesPush(index: nat, s: seq<Field>, leaf: Field)
    ensures RightLeaves(index, s + [leaf]) == RightLeaves(index, s)[index + |s| := leaf]
  {
    assert (s + [leaf])[..|s|] == s;
  }

  /** The anchoring loop: everything before the first match is dropped. */
  method Anchor(index: nat, commit: Field, scan: seq<Field>)
    returns (anchored: bool, right: map<nat, Field>, idx: nat)
    ensures anchored <==> commit in scan
    ensures anchored ==>
      right == RightLeaves(index, scan[FirstIndex(scan, commit)..]) && idx == index + |scan| - FirstIndex(scan, commit)
  {
    hide FirstIndex, RightLeaves;
    anchored, right, idx := false, map[], index;
    ghost var from := 0;
    for k := 0 to |scan|
      invariant !anchored ==> commit !in scan[..k] && right == map[] && idx == index
      invariant anchored ==> from < k && scan[from] == commit && commit !in scan[..from]
      invariant anchored ==> idx == index + k - from && right == RightLeaves(index, scan[from..k])
    {
      var leaf := scan[k];
      if !anchored {
        if leaf == commit {
          anchored := true;
          from := k;
          RightLeavesNone(index);
          assert scan[k..k] == [];
        }
      }
      if anchored {
        assert scan[from..k + 1] == scan[from..k] + [leaf];
        RightLeavesPush(index, scan[from..k], leaf);
        right := right[idx := leaf];
        idx := idx + 1;
      }
    }
    if anchored {
      FirstIsFirst(scan, commit, from);
      assert scan[from..|scan|] == scan[from..];
    }
  }

  lemma {:induction false} FirstIsFirst(scan: seq<Field>, x: Field, k: nat)
    requires k < |scan| && scan[k] == x && x !in scan[..k]
    ensures FirstIndex(scan, x) == k
  {
    if k > 0 {
      assert scan[..k] == [scan[0]] + scan[1..][..k - 1];
      FirstIsFirst(scan[1..], x, k - 1);
    }
  }

  method CheckedPath(record: NoteRecord, scan: seq<Field>, onchainRoot: Field)
    returns (r: Result<seq<Field>, ScanError>)
    ensures r == Reconstruct(record, scan, onchainRoot)
  {
    var commit := record.note.Commitment();
    var anchored, rightLeaves, idx := Anchor(record.path.index, commit, scan);
    if !anchored {
      return Err(NotFound);
    }
    var siblings := AuthPath(record.path.index, record.path.leftSnapshot, rightLeaves, idx - 1);
    var node := commit;
    for lv := 0 to DEPTH
      invariant node == Fold(commit, record.path.index, siblings, lv)
    {
      var s := siblings[lv];
      node := if Bit(record.path.index, lv) then (if s == ZERO then node else Node(s, node))
              else (if s == ZERO then node else Node(node, s));
    }
    r := if node != onchainRoot then Err(RootMismatch) else Ok(siblings);
  }

  /** The leaves that notes insert. */
  function LeavesOfNotes(notes: seq<Note>): (s: seq<Field>)
    ensures |s| == |notes|
  {
    seq(|notes|, k requires 0 <= k < |notes| => notes[k].Commitment())
  }

  /** A scan anchors on the leaf of a note exactly when value, asset, nullifier and secret
      are the record's own. */
  lemma AnchorsExactly(record: NoteRecord, notes: seq<Note>, root: Field)
    ensures Reconstruct(record, LeavesOfNotes(notes), root) == Err(NotFound)
        <==> forall k :: 0 <= k < |notes| ==> !SameNote(notes[k], record.note)
  {
    hide PathFrom, Fold, FirstIndex, SameNote;
    var scan, commit := LeavesOfNotes(notes), record.note.Commitment();
    forall k | 0 <= k < |notes| ensures scan[k] == commit <==> SameNote(notes[k], record.note) {
      CommitmentBinds(notes[k], record.note);
    }
    if commit in scan {
      var k :| 0 <= k < |scan| && scan[k] == commit;
      assert SameNote(notes[k], record.note);
    }
    if k :| 0 <= k < |notes| && SameNote(notes[k], record.note) {
      assert scan[k] == commit;
    }
  }

  // ---- the self-check accepts exactly the complete scans ------------------

  /** A record captured after `before` was inserted, whatever was inserted since. */
  lemma {:induction false} PathFromSuffix(record: NoteRecord, before: seq<Field>, suffix: seq<Field>)
    requires Located(DEPTH, record.path, before) && NonZero(before + suffix)
    requires suffix != [] && |before + suffix| <= Pow2(DEPTH)
    requires suffix[0] == record.note.Commitment()
    ensures PathFrom(record.path, suffix) == Siblings(DEPTH, before + suffix, |before|)
    ensures Fold(suffix[0], |before|, PathFrom(record.path, suffix), DEPTH) == Root(DEPTH, before + suffix)
  {
    hide Root, Siblings, Fold, PathOf, Located, RightLeaves;
    LocatedIndex(record.path, before);
    SuffixKnown(before, suffix);
    var all := before + suffix;
    assert all[..|before|] == before && all[|before|] == suffix[0];
    assert |all| - 1 == record.path.index + |suffix| - 1;
    StitchedPath(DEPTH, all, record.path, RightLeaves(|before|, suffix));
    FoldSiblings(DEPTH, all, |before|, |before|);
  }

  lemma {:induction false} SuffixKnown(before: seq<Field>, suffix: seq<Field>)
    ensures KnowsFrom(RightLeaves(|before|, suffix), before + suffix, |before|)
  {
  }

  lemma LocatedIndex(path: NotePath, before: seq<Field>)
    requires Located(DEPTH, path, before)
    ensures path.index == |before|
  {
  }

  /** A leaf of the shape the wallet's commitments have. */
  predicate IsCommitment(t: Field) {
    t.Node? && t.l.Node? && t.r.Node? && t.l.l.Num? && t.l.r.Num? && t.r.l.Num? && t.r.r.Num?
  }

  ghost predicate Commitments(s: seq<Field>) {
    forall k :: 0 <= k < |s| ==> IsCommitment(s[k])
  }

  /** The leaves of a tree, read off its root term. */
  function Flatten(t: Field): seq<Field> {
    if IsCommitment(t) then [t]
    else match t
      case Node(l, r) => Flatten(l) + Flatten(r)
      case _ => []
  }

  lemma {:induction false} FlattenRoot(lv: nat, s: seq<Field>)
    requires 0 < |s| <= Pow2(lv) && Commitments(s)
    ensures Root(lv, s).Node? && Root(lv, s).l.Node?
    ensures Flatten(Root(lv, s)) == s
  {
    if lv > 0 {
      var half := Pow2(lv - 1);
      if |s| <= half {
        FlattenRoot(lv - 1, s);
      } else {
        FlattenRoot(lv - 1, s[..half]);
        FlattenRoot(lv - 1, s[half..]);
        assert s == s[..half] + s[half..];
      }
    } else {
      assert s == [s[0]];
    }
  }

  /** Two leaf sequences of commitments with one root are one sequence. */
  lemma {:induction false} RootInjective(lv: nat, a: seq<Field>, b: seq<Field>)
    requires 0 < |a| <= Pow2(lv) && 0 < |b| <= Pow2(lv) && Commitments(a) && Commitments(b)
    requires Root(lv, a) == Root(lv, b)
    ensures a == b
  {
    FlattenRoot(lv, a);
    FlattenRoot(lv, b);
  }

  /** Hashes above the leftmost leaf of a subtree that holds `n` leaves. */
  function Height(lv: nat, n: nat): (h: nat)
    requires n <= Pow2(lv)
    ensures h <= lv
  {
    if lv == 0 then 0
    else if n <= Pow2(lv - 1) then Height(lv - 1, n)
    else lv
  }

  /** Hashes down the left edge of a term. */
  function LeftEdge(t: Field): nat {
    match t
    case Node(l, _) => 1 + LeftEdge(l)
    case _ => 0
  }

  lemma {:induction false} HeightStep(lv: nat, n: nat)
    requires lv > 0 && n <= Pow2(lv)
    ensures Height(lv, n) == if n <= Pow2(lv - 1) then Height(lv - 1, n) else lv
  {
  }

  lemma {:induction false} FullHeight(lv: nat)
    ensures Height(lv, Pow2(lv)) == lv
  {
  }

  lemma {:induction false} EdgeOfRoot(lv: nat, s: seq<Field>)
    requires 0 < |s| <= Pow2(lv)
    ensures LeftEdge(Root(lv, s)) == Height(lv, |s|) + LeftEdge(s[0])
  {
    if lv > 0 {
      var half := Pow2(lv - 1);
      if |s| <= half {
        EdgeOfRoot(lv - 1, s);
      } else {
        EdgeOfRoot(lv - 1, s[..half]);
        FullHeight(lv - 1);
      }
    }
  }

  lemma SuffixParts(s: seq<Field>)
    requires Commitments(s)
    ensures forall k :: 0 <= k <= |s| ==> Commitments(s[..k]) && Commitments(s[k..])
  {
  }

  /** Equal roots over one first leaf fill the same half, or both go beyond it. */
  lemma {:induction false} SameReach(lv: nat, s: seq<Field>, t: seq<Field>)
    requires lv > 0 && 0 < |s| <= Pow2(lv) && 0 < |t| <= Pow2(lv) && s[0] == t[0]
    requires Root(lv, s) == Root(lv, t)
    ensures |s| <= Pow2(lv - 1) <==> |t| <= Pow2(lv - 1)
  {
    hide Root, Height, LeftEdge;
    EdgeOfRoot(lv, s);
    EdgeOfRoot(lv, t);
    HeightStep(lv, |s|);
    HeightStep(lv, |t|);
  }

  lemma {:induction false} SameHalves(lv: nat, s: seq<Field>, t: seq<Field>)
    requires lv > 0 && Pow2(lv - 1) < |s| <= Pow2(lv) && Pow2(lv - 1) < |t| <= Pow2(lv)
    requires Root(lv, s) == Root(lv, t)
    ensures Root(lv - 1, s[..Pow2(lv - 1)]) == Root(lv - 1, t[..Pow2(lv - 1)])
    ensures Root(lv - 1, s[Pow2(lv - 1)..]) == Root(lv - 1, t[Pow2(lv - 1)..])
  {
    RootStep(lv, s);
    RootStep(lv, t);
  }

  /** Behind one and the same non-empty beginning, of any leaves at all, commitments are
      bound by the root. */
  lemma {:induction false} SuffixBound(lv: nat, before: seq<Field>, a: seq<Field>, b: seq<Field>)
    requires before != [] && Commitments(a) && Commitments(b)
    requires |before| + |a| <= Pow2(lv) && |before| + |b| <= Pow2(lv)
    requires Root(lv, before + a) == Root(lv, before + b)
    ensures a == b
    decreases lv, 1
  {
    if lv == 0 {
      assert a == [] && b == [];
    } else {
      hide Root, Commitments, Pow2;
      SameReach(lv, before + a, before + b);
      if |before| + |a| <= Pow2(lv - 1) {
        RootStep(lv, before + a);
        RootStep(lv, before + b);
        SuffixBound(lv - 1, before, a, b);
      } else {
        SameHalves(lv, before + a, before + b);
        SuffixBoundUpper(lv, before, a, b);
      }
    }
  }

  lemma {:induction false} SuffixBoundUpper(lv: nat, before: seq<Field>, a: seq<Field>, b: seq<Field>)
    requires lv > 0 && before != [] && Commitments(a) && Commitments(b)
    requires Pow2(lv - 1) < |before| + |a| <= Pow2(lv) && Pow2(lv - 1) < |before| + |b| <= Pow2(lv)
    requires Root(lv - 1, (before + a)[..Pow2(lv - 1)]) == Root(lv - 1, (before + b)[..Pow2(lv - 1)])
    requires Root(lv - 1, (before + a)[Pow2(lv - 1)..]) == Root(lv - 1, (before + b)[Pow2(lv - 1)..])
    ensures a == b
    decreases lv, 0
  {
    Pow2Step(lv);
    hide Root, Commitments, Pow2;
    var half := Pow2(lv - 1);
    if half <= |before| {
      BeyondHalf(before, a, half);
      BeyondHalf(before, b, half);
      if half < |before| {
        SuffixBound(lv - 1, before[half..], a, b);
      } else {
        assert before[half..] == [] && before[half..] + a == a && before[half..] + b == b;
        RootInjective(lv - 1, a, b);
      }
    } else {
      var k := half - |before|;
      AcrossHalf(before, a, half);
      AcrossHalf(before, b, half);
      SuffixParts(a);
      SuffixParts(b);
      SuffixBound(lv - 1, before, a[..k], b[..k]);
      RootInjective(lv - 1, a[k..], b[k..]);
      assert a == a[..k] + a[k..] && b == b[..k] + b[k..];
    }
  }

  lemma BeyondHalf(before: seq<Field>, a: seq<Field>, half: nat)
    requires half <= |before|
    ensures (before + a)[half..] == before[half..] + a
  {
  }

  lemma AcrossHalf(before: seq<Field>, a: seq<Field>, half: nat)
    requires |before| < half <= |before| + |a|
    ensures (before + a)[..half] == before + a[..half - |before|] && (before + a)[half..] == a[half - |before|..]
  {
  }

  lemma {:induction false} RootOfSuffix(lv: nat, before: seq<Field>, a: seq<Field>, b: seq<Field>)
    requires Commitments(a) && Commitments(b)
    requires 0 < |before| + |a| <= Pow2(lv) && 0 < |before| + |b| <= Pow2(lv)
    ensures Root(lv, before + a) == Root(lv, before + b) <==> a == b
  {
    if Root(lv, before + a) == Root(lv, before + b) {
      if before == [] {
        assert before + a == a && before + b == b;
        RootInjective(lv, a, b);
      } else {
        SuffixBound(lv, before, a, b);
      }
    }
  }

  /** The self-check passes exactly when the scan, from the first match on, is the complete
      list of leaves from the note's own to the last: nothing missing, added or swapped.
      The leaves before the note may be anything but 0. */
  lemma {:induction false} SelfCheckExact(record: NoteRecord, before: seq<Field>, rest: seq<Field>, scan: seq<Field>)
    requires Located(DEPTH, record.path, before) && NonZero(before)
    requires rest != [] && Commitments(rest)
    requires record.note.Commitment() in scan ==> Commitments(scan[FirstIndex(scan, record.note.Commitment())..])
    requires |before| + |rest| <= Pow2(DEPTH) && |before| + |scan| <= Pow2(DEPTH)
    ensures Reconstruct(record, scan, LiveRoot(DEPTH, before + rest)).Ok? <==>
      (record.note.Commitment() in scan && scan[FirstIndex(scan, record.note.Commitment())..] == rest)
    ensures Reconstruct(record, scan, LiveRoot(DEPTH, before + rest)) == Err(NotFound) <==> record.note.Commitment() !in scan
  {
    hide Root, Siblings, Fold, PathFrom, LiveRoot, FirstIndex, Located;
    var commit := record.note.Commitment();
    LiveRootIsRoot(DEPTH, before + rest);
    if commit in scan {
      var suffix := scan[FirstIndex(scan, commit)..];
      LocatedIndex(record.path, before);
      PathFromSuffix(record, before, suffix);
      RootOfSuffix(DEPTH, before, suffix, rest);
    }
  }

  /** Completeness: a scan that starts at or before the note, sees no earlier leaf equal to
      its commitment, and reaches the present, yields the 128 siblings of the leaf. */
  lemma {:induction false} ScanComplete(record: NoteRecord, all: seq<Field>, extra: seq<Field>)
    requires NonZero(all) && record.path.index < |all| <= Pow2(DEPTH)
    requires Located(DEPTH, record.path, all[..record.path.index])
    requires all[record.path.index] == record.note.Commitment() && record.note.Commitment() !in extra
    ensures Reconstruct(record, extra + all[record.path.index..], LiveRoot(DEPTH, all))
         == Ok(Siblings(DEPTH, all, record.path.index))
  {
    hide Root, Siblings, Fold, PathFrom, LiveRoot, Located;
    var i := record.path.index;
    var scan := extra + all[i..];
    assert scan[..|extra|] == extra && scan[|extra|] == all[i];
    FirstIsFirst(scan, all[i], |extra|);
    assert scan[|extra|..] == all[i..];
    assert all[..i] + all[i..] == all;
    PathFromSuffix(record, all[..i], all[i..]);
    LiveRootIsRoot(DEPTH, all);
  }
}
