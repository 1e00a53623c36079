/** Reading the pool's events (web/src/shieldpool.ts, `getLogsSafe` and the scan of
    `reconstructPath`): a range request that fails is split in half and retried.  */
module LogScan {
  import opened Poseidon
  import opened Powers
  import opened LeanImt
  import opened ShieldPool
  import opened PathRebuild
  import opened Sorting
  import opened Wrappers

  /** A Deposit or NewCommitment event, in the order the chain emitted them. */
  datatype Log = Log(block: nat, index: nat, deposit: bool, leaf: Field)

  /** Order by block number, then by log index. */
  predicate LogLe(a: Log, b: Log) {
    a.block < b.block || (a.block == b.block && a.index <= b.index)
  }

  ghost predicate Chronological(h: seq<Log>) {
    forall i, j :: 0 <= i < j < |h| ==> LogLe(h[i], h[j]) && !LogLe(h[j], h[i])
  }

  /** The logs of one kind in a block range, in chain order. */
  function InRange(h: seq<Log>, deposit: bool, from: int, to: int): seq<Log> {
    if h == [] then []
    else (if h[0].deposit == deposit && from <= h[0].block <= to then [h[0]] else []) + InRange(h[1..], deposit, from, to)
  }

  function Between(h: seq<Log>, from: int, to: int): seq<Log> {
    if h == [] then []
    else (if from <= h[0].block <= to then [h[0]] else []) + Between(h[1..], from, to)
  }

  function LeavesOf(h: seq<Log>): (s: seq<Field>)
    ensures |s| == |h|
    ensures forall k :: 0 <= k < |h| ==> s[k] == h[k].leaf
  {
    if h == [] then [] else [h[0].leaf] + LeavesOf(h[1..])
  }

  /** In chain order blocks never fall, and within a block log indices rise. */
  lemma ChainOrder(h: seq<Log>, i: nat, j: nat)
    requires Chronological(h) && i < j < |h|
    ensures h[i].block <= h[j].block && (h[i].block == h[j].block ==> h[i].index < h[j].index)
  {
    assert LogLe(h[i], h[j]) && !LogLe(h[j], h[i]);
  }

  lemma InOrder(h: seq<Log>)
    requires Chronological(h) && h != []
    ensures Chronological(h[1..]) && forall k :: 0 <= k < |h| ==> h[0].block <= h[k].block
  {
  }

  function HeadIn(h: seq<Log>, deposit: bool, from: int, to: int): seq<Log>
    requires h != []
  {
    if h[0].deposit == deposit && from <= h[0].block <= to then [h[0]] else []
  }

  lemma {:induction false} InRangeHead(h: seq<Log>, deposit: bool, from: int, to: int)
    requires h != []
    ensures InRange(h, deposit, from, to) == HeadIn(h, deposit, from, to) + InRange(h[1..], deposit, from, to)
  {
  }

  lemma HeadOnOneSide(h: seq<Log>, deposit: bool, from: int, m: int, to: int)
    requires h != [] && from <= m + 1 && m <= to
    ensures h[0].block <= m ==>
      HeadIn(h, deposit, from, to) == HeadIn(h, deposit, from, m) && HeadIn(h, deposit, m + 1, to) == []
    ensures h[0].block > m ==>
      HeadIn(h, deposit, from, to) == HeadIn(h, deposit, m + 1, to) && HeadIn(h, deposit, from, m) == []
  {
  }

  lemma {:induction false} InRangeSplits(h: seq<Log>, deposit: bool, from: int, m: int, to: int)
    requires Chronological(h) && from <= m + 1 && m <= to
    ensures InRange(h, deposit, from, to) == InRange(h, deposit, from, m) + InRange(h, deposit, m + 1, to)
  {
    if h != [] {
      hide Chronological, InRange, HeadIn;
      InOrder(h);
      InRangeSplits(h[1..], deposit, from, m, to);
      InRangeHead(h, deposit, from, to);
      InRangeHead(h, deposit, from, m);
      InRangeHead(h, deposit, m + 1, to);
      HeadOnOneSide(h, deposit, from, m, to);
      if h[0].block > m {
        NoneInRange(h[1..], deposit, from, m);
      }
    }
  }

  lemma {:induction false} NoneInRange(h: seq<Log>, deposit: bool, from: int, to: int)
    requires forall k :: 0 <= k < |h| ==> h[k].block > to || h[k].block < from
    ensures InRange(h, deposit, from, to) == []
  {
    if h != [] {
      NoneInRange(h[1..], deposit, from, to);
    }
  }

  /** `x >> 1`: the operand is first wrapped to a signed 32-bit integer. */
  function HalfInt32(x: nat): int {
    var w := x % 0x1_0000_0000;
    (if w < 0x8000_0000 then w else w - 0x1_0000_0000) / 2
  }

  /** Highest block up to which no split of a range can wrap. */
  const MAX_BLOCK: nat := 0x4000_0000

  predicate SplitsInside(from: nat, to: nat) {
    from <= HalfInt32(from + to) < to
  }

  /** Every split of a range that ends at `to` falls inside it exactly when `to` is at most
      MAX_BLOCK: beyond it the sum that is halved can reach 2^31. */
  lemma SplitsExactly(to: nat)
    ensures (forall from: nat :: from < to ==> SplitsInside(from, to)) <==> to <= MAX_BLOCK
  {
    if to > MAX_BLOCK {
      assert !SplitsInside(to - 1, to);
    }
  }

  lemma HalfInside(from: nat, to: nat)
    requires from < to <= MAX_BLOCK
    ensures SplitsInside(from, to)
  {
  }

  /** What a scan may have appended when it stops: everything before some block. */
  ghost predicate AppendedUpTo(was: seq<Log>, now: seq<Log>, h: seq<Log>, deposit: bool, from: int, to: int, e: int) {
    from <= e && (e <= to || e == from) && now == was + InRange(h, deposit, from, e - 1)
  }

  lemma StopsAtStart(out: seq<Log>, h: seq<Log>, deposit: bool, from: int, to: int)
    ensures AppendedUpTo(out, out, h, deposit, from, to, from)
  {
    NoneInRange(h, deposit, from, from - 1);
  }

  lemma StopsLeft(was: seq<Log>, now: seq<Log>, h: seq<Log>, deposit: bool, from: int, m: int, to: int, e: int)
    requires m < to && AppendedUpTo(was, now, h, deposit, from, m, e)
    ensures AppendedUpTo(was, now, h, deposit, from, to, e)
  {
  }

  lemma {:induction false} StopsRight(was: seq<Log>, mid: seq<Log>, now: seq<Log>, h: seq<Log>, deposit: bool, from: int, m: int, to: int, e: int)
    requires Chronological(h) && from <= m < to && mid == was + InRange(h, deposit, from, m)
    requires AppendedUpTo(mid, now, h, deposit, m + 1, to, e)
    ensures AppendedUpTo(was, now, h, deposit, from, to, e)
  {
    InRangeSplits(h, deposit, from, m, e - 1);
  }

  class Scanner {
    const history: seq<Log>
    /** Whether the k-th request to the provider, for a range of blocks, fails: any pattern
        at all. */
    const fails: (nat, int, int) -> bool
    var calls: nat
    var out: seq<Log>

    constructor (history: seq<Log>, fails: (nat, int, int) -> bool)
      ensures this.history == history && this.fails == fails && calls == 0 && out == []
    {
      this.history, this.fails := history, fails;
      calls, out := 0, [];
    }

    method GetLogs(deposit: bool, from: int, to: int) returns (r: Option<seq<Log>>)
      modifies this`calls
      ensures calls == old(calls) + 1
      ensures r == if fails(old(calls), from, to) then None else Some(InRange(history, deposit, from, to))
    {
      r := if fails(calls, from, to) then None else Some(InRange(history, deposit, from, to));
      calls := calls + 1;
    }

    /** Whether the last request failed and cannot be split: it asked for the single block
        `b` of the range, or for the range itself if that is empty. */
    predicate StuckAt(from: int, to: int, b: int)
      reads this`calls
    {
      calls > 0 && from <= b && (b <= to || b == from) && fails(calls - 1, b, if from <= to then b else to)
    }

    /** Appends every log of the range exactly once and in order, or stops because a single
        block failed, having appended everything before it. */
    method GetLogsSafe(deposit: bool, from: nat, to: nat) returns (ok: bool)
      requires Chronological(history)
      requires to <= MAX_BLOCK
      modifies this`calls, this`out
      ensures ok ==> out == old(out) + InRange(history, deposit, from, to)
      ensures !ok ==> exists b ::
        StuckAt(from, to, b) && AppendedUpTo(old(out), out, history, deposit, from, to, b)
      ensures old(calls) < calls <= old(calls) + (if from < to then 2 * (to - from) + 1 else 1)
      decreases if from < to then to - from else 0
    {
      hide InRange, Chronological, AppendedUpTo, HalfInt32;
      ghost var was := out;
      var r := GetLogs(deposit, from, to);
      if r.Some? {
        out := out + r.value;
        return true;
      }
      if to <= from {
        StopsAtStart(out, history, deposit, from, to);
        assert StuckAt(from, to, from);
        return false;
      }
      HalfInside(from, to);
      var m := HalfInt32(from + to);
      ok := GetLogsSafe(deposit, from, m);
      if !ok {
        ghost var b: int :| StuckAt(from, m, b) && AppendedUpTo(was, out, history, deposit, from, m, b);
        StopsLeft(was, out, history, deposit, from, m, to, b);
        assert StuckAt(from, to, b);
        return;
      }
      ghost var mid := out;
      ok := GetLogsSafe(deposit, m + 1, to);
      if ok {
        InRangeSplits(history, deposit, from, m, to);
      } else {
        ghost var b: int :| StuckAt(m + 1, to, b) && AppendedUpTo(mid, out, history, deposit, m + 1, to, b);
        StopsRight(was, mid, out, history, deposit, from, m, to, b);
        assert StuckAt(from, to, b);
      }
    }

    /** The whole of `reconstructPath`: both event kinds, sorted, anchored and checked. */
    method ReconstructPath(record: NoteRecord, current: nat, onchainRoot: Field)
      returns (r: Result<seq<Field>, ScanError>)
      requires Chronological(history) && out == []
      requires current <= MAX_BLOCK
      modifies this`calls, this`out
      ensures r == Err(LogsFailed) ||
              r == Reconstruct(record, LeavesOf(Between(history, record.depositBlock, current)), onchainRoot)
      ensures r == Err(LogsFailed) ==> calls > old(calls) && exists b :: StuckAt(record.depositBlock, current, b)
    {
      hide Reconstruct, InRange, Between, SortBy, LeavesOf, AppendedUpTo;
      var ok := GetLogsSafe(true, record.depositBlock, current);
      if ok {
        ok := GetLogsSafe(false, record.depositBlock, current);
      }
      if !ok {
        return Err(LogsFailed);
      }
      assert out == InRange(history, true, record.depositBlock, current) + InRange(history, false, record.depositBlock, current);
      SortMerges(history, record.depositBlock, current);
      var logs := SortBy(out, LogLe);
      r := CheckedPath(record, LeavesOf(logs), onchainRoot);
    }
  }

  // ---- sorting the two event lists back into chain order ------------------

  lemma {:induction false} KindsPartition(h: seq<Log>, from: int, to: int)
    ensures multiset(InRange(h, true, from, to)) + multiset(InRange(h, false, from, to)) == multiset(Between(h, from, to))
  {
    if h != [] {
      KindsPartition(h[1..], from, to);
    }
  }

  lemma {:induction false} BetweenMembers(h: seq<Log>, from: int, to: int)
    ensures forall x :: x in Between(h, from, to) ==> x in h && from <= x.block <= to
  {
    if h != [] {
      BetweenMembers(h[1..], from, to);
    }
  }

  lemma {:induction false} BetweenChronological(h: seq<Log>, from: int, to: int)
    requires Chronological(h)
    ensures Chronological(Between(h, from, to))
  {
    if h != [] {
      BetweenChronological(h[1..], from, to);
      BetweenMembers(h[1..], from, to);
      var rest := Between(h[1..], from, to);
      forall k | 0 <= k < |rest| ensures LogLe(h[0], rest[k]) && !LogLe(rest[k], h[0]) {
        assert rest[k] in h[1..];
      }
    }
  }

  lemma {:induction false} SortMerges(h: seq<Log>, from: int, to: int)
    requires Chronological(h)
    ensures SortBy(InRange(h, true, from, to) + InRange(h, false, from, to), LogLe) == Between(h, from, to)
  {
    var s := InRange(h, true, from, to) + InRange(h, false, from, to);
    SortBySorted(s, LogLe);
    SortByPermutes(s, LogLe);
    KindsPartition(h, from, to);
    BetweenChronological(h, from, to);
    OnlyArrangement(Between(h, from, to), SortBy(s, LogLe), LogLe);
  }

  // ---- the bounded scan is enough -----------------------------------------

  /** A scan up to the present is a suffix of the history that starts at or before any log
      of the starting block or later. */
  lemma {:induction false} ScanIsSuffix(h: seq<Log>, from: nat, to: nat, i: nat) returns (p: nat)
    requires Chronological(h) && i < |h| && from <= h[i].block
    requires forall k :: 0 <= k < |h| ==> h[k].block <= to
    ensures p <= i && Between(h, from, to) == h[p..]
  {
    if h[0].block >= from {
      p := 0;
      AllBetween(h, from, to);
    } else {
      var q := ScanIsSuffix(h[1..], from, to, i - 1);
      p := q + 1;
      assert h[1..][q..] == h[p..];
    }
  }

  lemma {:induction false} AllBetween(h: seq<Log>, from: nat, to: nat)
    requires forall k :: 0 <= k < |h| ==> from <= h[k].block <= to
    ensures Between(h, from, to) == h
  {
    if h != [] {
      AllBetween(h[1..], from, to);
    }
  }

  /** From its deposit block on, without the genesis leaf or any earlier event, a note finds
      the siblings its leaf has in the tree of all leaves; they fold to the live root. */
  lemma {:induction false} BoundedScanSuffices(h: seq<Log>, record: NoteRecord, current: nat)
    requires Chronological(h) && NonZero(LeavesOf(h)) && record.path.index < |h| <= Pow2(DEPTH)
    requires Located(DEPTH, record.path, LeavesOf(h)[..record.path.index])
    requires LeavesOf(h)[record.path.index] == record.note.Commitment()
    requires record.note.Commitment() !in LeavesOf(h)[..record.path.index]
    requires record.depositBlock <= h[record.path.index].block
    requires forall k :: 0 <= k < |h| ==> h[k].block <= current
    ensures Reconstruct(record, LeavesOf(Between(h, record.depositBlock, current)), LiveRoot(DEPTH, LeavesOf(h)))
         == Ok(Siblings(DEPTH, LeavesOf(h), record.path.index))
  {
    hide Root, Siblings, LiveRoot, Reconstruct, Located, Between, LeavesOf;
    var i, all := record.path.index, LeavesOf(h);
    var p := ScanIsSuffix(h, record.depositBlock, current, i);
    LeavesOfDrop(h, p);
    SplitAround(all, p, i, record.note.Commitment());
    ScanComplete(record, all, all[p..i]);
  }

  lemma BlockOrder(h: seq<Log>, k: nat, i: nat)
    requires Chronological(h) && k < |h| && i < |h|
    ensures k <= i ==> h[k].block <= h[i].block
  {
  }

  lemma {:induction false} LaterLeaf(h: seq<Log>, i: nat, k: nat)
    requires i < |h| && k < |h|
    ensures k > i ==> h[k].leaf in LeavesOf(h)[i + 1..]
  {
    if k > i {
      assert LeavesOf(h)[i + 1..][k - i - 1] == LeavesOf(h)[k];
    }
  }

  /** A scan that starts after the note's own block never meets its commitment. */
  lemma {:induction false} LateScanMisses(h: seq<Log>, i: nat, from: nat, to: nat)
    requires Chronological(h) && i < |h| && from > h[i].block
    requires h[i].leaf !in LeavesOf(h)[i + 1..]
    ensures h[i].leaf !in LeavesOf(Between(h, from, to))
  {
    hide Between, LeavesOf, Chronological;
    BetweenMembers(h, from, to);
    var scan := Between(h, from, to);
    forall j | 0 <= j < |scan| ensures scan[j].leaf != h[i].leaf {
      var x := scan[j];
      assert x in scan;
      var k :| 0 <= k < |h| && h[k] == x;
      BlockOrder(h, k, i);
      LaterLeaf(h, i, k);
    }
  }

  /** A record finds its note exactly when its scan starts no later than the block of the
      note.  A deposit steps back one block from its receipt; a change note is recorded
      with whatever block is current by then, and is lost when that is a later one. */
  lemma {:induction false} FoundExactly(h: seq<Log>, record: NoteRecord, current: nat)
    requires Chronological(h) && NonZero(LeavesOf(h)) && record.path.index < |h| <= Pow2(DEPTH)
    requires Located(DEPTH, record.path, LeavesOf(h)[..record.path.index])
    requires LeavesOf(h)[record.path.index] == record.note.Commitment()
    requires record.note.Commitment() !in LeavesOf(h)[..record.path.index]
    requires record.note.Commitment() !in LeavesOf(h)[record.path.index + 1..]
    requires forall k :: 0 <= k < |h| ==> h[k].block <= current
    ensures var r := Reconstruct(record, LeavesOf(Between(h, record.depositBlock, current)), LiveRoot(DEPTH, LeavesOf(h)));
      && (r.Ok? <==> record.depositBlock <= h[record.path.index].block)
      && (r.Ok? ==> r.value == Siblings(DEPTH, LeavesOf(h), record.path.index))
      && (r.Err? ==> r == Err(NotFound))
  {
    hide Root, Siblings, LiveRoot, Located, Between, LeavesOf, PathFrom, Fold;
    if record.depositBlock <= h[record.path.index].block {
      BoundedScanSuffices(h, record, current);
    } else {
      LateScanMisses(h, record.path.index, record.depositBlock, current);
    }
  }

  lemma SplitAround(all: seq<Field>, p: nat, i: nat, x: Field)
    requires p <= i <= |all| && x !in all[..i]
    ensures all[p..] == all[p..i] + all[i..] && x !in all[p..i]
  {
    assert all[..i] == all[..p] + all[p..i];
  }

  lemma {:induction false} LeavesOfDrop(h: seq<Log>, p: nat)
    requires p <= |h|
    ensures LeavesOf(h[p..]) == LeavesOf(h)[p..]
  {
  }

  /** A change note recorded one block too late: the single leaf of the pool, found from its
      own block on and lost from the next. */
  lemma {:induction false} LateRecordLost(note: Note, block: nat, current: nat)
    requires block < current
    ensures var h := [Log(block, 0, false, note.Commitment())];
      var late := NoteRecord(note, NotePath(0, map[]), block + 1);
      && Located(DEPTH, late.path, [])
      && Reconstruct(late, LeavesOf(Between(h, block + 1, current)), LiveRoot(DEPTH, LeavesOf(h))) == Err(NotFound)
      && Reconstruct(late.(depositBlock := block), LeavesOf(Between(h, block, current)), LiveRoot(DEPTH, LeavesOf(h))).Ok?
  {
    hide Reconstruct, LiveRoot, Siblings, Between;
    var h := [Log(block, 0, false, note.Commitment())];
    var late := NoteRecord(note, NotePath(0, map[]), block + 1);
    Pow2Mono(0, DEPTH);
    assert LeavesOf(h)[..0] == [] && LeavesOf(h)[1..] == [];
    LocatedFirst();
    FoundExactly(h, late, current);
    FoundExactly(h, late.(depositBlock := block), current);
  }

  lemma LocatedFirst()
    ensures Located(DEPTH, NotePath(0, map[]), [])
  {
    forall lv: nat ensures !Bit(0, lv) {
      DivUnique(0, Pow2(lv), 0);
    }
    assert LeftSnapshot(0, SideAfter(DEPTH, [])) == map[];
  }
}
