/** The device's store of shielded notes (web/src/shield.ts): every asset in one list,
    picked, summed and spent per asset.  */
module NoteWallet {
  import opened Wrappers
  import opened Sorting
  import opened ShieldPool
  import opened PathRebuild
  import opened Powers
  import opened Poseidon
  import opened LeanImt
  import opened LogScan
  import Denominations
  import AssetIds

  datatype StoredNote = StoredNote(record: NoteRecord, spent: bool)
  {
    function Nullifier(): nat { record.note.nullifier }

    function Value(): nat { record.note.value }

    /** Unspent and of this asset, the precompile address or 0 for native. */
    predicate Holds(asset: nat) { !spent && record.note.AssetOf() == asset }
  }

  predicate ByValue(a: StoredNote, b: StoredNote) {
    a.Value() <= b.Value()
  }

  function Unspent(notes: seq<StoredNote>, asset: nat): seq<StoredNote> {
    if notes == [] then []
    else (if notes[0].Holds(asset) then [notes[0]] else []) + Unspent(notes[1..], asset)
  }

  /** Unspent notes of one asset, smallest first. */
  function NotesOf(notes: seq<StoredNote>, asset: nat): seq<StoredNote> {
    SortBy(Unspent(notes, asset), ByValue)
  }

  function FindAtLeast(notes: seq<StoredNote>, minValue: int): Option<StoredNote> {
    if notes == [] then None
    else if notes[0].Value() >= minValue then Some(notes[0])
    else FindAtLeast(notes[1..], minValue)
  }

  function PickSpendable(notes: seq<StoredNote>, minValue: int, asset: nat): Option<StoredNote> {
    FindAtLeast(NotesOf(notes, asset), minValue)
  }

  function Values(notes: seq<StoredNote>): nat {
    if notes == [] then 0 else notes[0].Value() + Values(notes[1..])
  }

  function ShieldedBalance(notes: seq<StoredNote>, asset: nat): nat {
    Values(NotesOf(notes, asset))
  }

  function MarkSpent(notes: seq<StoredNote>, nullifier: nat): (r: seq<StoredNote>)
    ensures |r| == |notes|
  {
    if notes == [] then []
    else [if notes[0].Nullifier() == nullifier then notes[0].(spent := true) else notes[0]] + MarkSpent(notes[1..], nullifier)
  }

  predicate Known(notes: seq<StoredNote>, nullifier: nat) {
    exists k :: 0 <= k < |notes| && notes[k].Nullifier() == nullifier
  }

  function Adopt(notes: seq<StoredNote>, rec: StoredNote): seq<StoredNote> {
    if Known(notes, rec.Nullifier()) then notes else notes + [rec]
  }

  ghost predicate DistinctNullifiers(notes: seq<StoredNote>) {
    forall i, j :: 0 <= i < j < |notes| ==> notes[i].Nullifier() != notes[j].Nullifier()
  }

  // ---- balance arithmetic -------------------------------------------------

  lemma {:induction false} ValuesInsert(x: StoredNote, s: seq<StoredNote>)
    ensures Values(InsertBy(x, s, ByValue)) == x.Value() + Values(s)
  {
    if s != [] && !ByValue(x, s[0]) {
      ValuesInsert(x, s[1..]);
    }
  }

  lemma {:induction false} ValuesSorted(s: seq<StoredNote>)
    ensures Values(SortBy(s, ByValue)) == Values(s)
  {
    if s != [] {
      ValuesSorted(s[1..]);
      ValuesInsert(s[0], SortBy(s[1..], ByValue));
    }
  }

  lemma {:induction false} ValuesConcat(a: seq<StoredNote>, b: seq<StoredNote>)
    ensures Values(a + b) == Values(a) + Values(b)
  {
    if a == [] {
      assert a + b == b;
    } else {
      assert (a + b)[1..] == a[1..] + b;
      ValuesConcat(a[1..], b);
    }
  }

  lemma {:induction false} UnspentConcat(a: seq<StoredNote>, b: seq<StoredNote>, asset: nat)
    ensures Unspent(a + b, asset) == Unspent(a, asset) + Unspent(b, asset)
  {
    if a == [] {
      assert a + b == b;
    } else {
      UnspentConcat(a[1..], b, asset);
      assert (a + b)[1..] == a[1..] + b && (a + b)[0] == a[0];
      var head := if a[0].Holds(asset) then [a[0]] else [];
      assert head + (Unspent(a[1..], asset) + Unspent(b, asset)) == (head + Unspent(a[1..], asset)) + Unspent(b, asset);
    }
  }

  function Worth(n: StoredNote, asset: nat): nat {
    if n.Holds(asset) then n.Value() else 0
  }

  /** Pushing a note adds its worth. */
  lemma BalanceAfterPush(notes: seq<StoredNote>, n: StoredNote, asset: nat)
    ensures ShieldedBalance(notes + [n], asset) == ShieldedBalance(notes, asset) + Worth(n, asset)
  {
    ValuesSorted(Unspent(notes, asset));
    ValuesSorted(Unspent(notes + [n], asset));
    UnspentConcat(notes, [n], asset);
    ValuesConcat(Unspent(notes, asset), Unspent([n], asset));
  }

  lemma {:induction false} MarkUnknown(notes: seq<StoredNote>, nullifier: nat)
    requires !Known(notes, nullifier)
    ensures MarkSpent(notes, nullifier) == notes
  {
    if notes != [] {
      assert notes[0].Nullifier() != nullifier;
      forall k | 0 <= k < |notes[1..]| ensures notes[1..][k].Nullifier() != nullifier {
        assert notes[1..][k] == notes[k + 1];
      }
      MarkUnknown(notes[1..], nullifier);
    }
  }

  lemma {:induction false} ValuesHead(notes: seq<StoredNote>, asset: nat)
    requires notes != []
    ensures Values(Unspent(notes, asset)) == Worth(notes[0], asset) + Values(Unspent(notes[1..], asset))
  {
    var head := if notes[0].Holds(asset) then [notes[0]] else [];
    ValuesConcat(head, Unspent(notes[1..], asset));
  }

  lemma {:induction false} ValuesAfterSpend(notes: seq<StoredNote>, n: StoredNote, asset: nat)
    requires DistinctNullifiers(notes) && n in notes
    ensures Values(Unspent(MarkSpent(notes, n.Nullifier()), asset)) == Values(Unspent(notes, asset)) - Worth(n, asset)
  {
    var marked := MarkSpent(notes, n.Nullifier());
    assert marked[1..] == MarkSpent(notes[1..], n.Nullifier());
    ValuesHead(notes, asset);
    ValuesHead(marked, asset);
    if notes[0] == n {
      forall k | 0 <= k < |notes[1..]| ensures notes[1..][k].Nullifier() != n.Nullifier() {
        assert notes[1..][k] == notes[k + 1];
      }
      MarkUnknown(notes[1..], n.Nullifier());
    } else {
      var k :| 0 < k < |notes| && notes[k] == n;
      assert notes[1..][k - 1] == n;
      assert notes[0].Nullifier() != notes[k].Nullifier();
      ValuesAfterSpend(notes[1..], n, asset);
    }
  }

  /** Spending a note takes its worth out of its own asset's balance and no other. */
  lemma {:induction false} BalanceAfterSpend(notes: seq<StoredNote>, n: StoredNote, asset: nat)
    requires DistinctNullifiers(notes) && n in notes
    ensures ShieldedBalance(MarkSpent(notes, n.Nullifier()), asset) == ShieldedBalance(notes, asset) - Worth(n, asset)
  {
    ValuesSorted(Unspent(notes, asset));
    ValuesSorted(Unspent(MarkSpent(notes, n.Nullifier()), asset));
    ValuesAfterSpend(notes, n, asset);
  }

  lemma {:induction false} MarkKeepsNullifiers(notes: seq<StoredNote>, nullifier: nat)
    ensures forall k :: 0 <= k < |notes| ==> MarkSpent(notes, nullifier)[k].Nullifier() == notes[k].Nullifier()
  {
    if notes != [] {
      MarkKeepsNullifiers(notes[1..], nullifier);
    }
  }

  /** Marking spends the notes with that nullifier and changes nothing else. */
  lemma {:induction false} MarkedExactly(notes: seq<StoredNote>, nullifier: nat)
    ensures forall k :: 0 <= k < |notes| ==>
      && MarkSpent(notes, nullifier)[k].record == notes[k].record
      && (MarkSpent(notes, nullifier)[k].spent <==> notes[k].spent || notes[k].record.note.nullifier == nullifier)
  {
    if notes != [] {
      MarkedExactly(notes[1..], nullifier);
    }
  }

  /** A note is adopted exactly when none with its nullifier is stored, once. */
  lemma AdoptsOnce(notes: seq<StoredNote>, rec: StoredNote)
    ensures Adopt(notes, rec) == if exists k :: 0 <= k < |notes| && notes[k].record.note.nullifier == rec.record.note.nullifier
                                 then notes else notes + [rec]
    ensures Adopt(Adopt(notes, rec), rec) == Adopt(notes, rec)
  {
    if !Known(notes, rec.Nullifier()) {
      assert (notes + [rec])[|notes|].Nullifier() == rec.Nullifier();
      assert forall k :: 0 <= k < |notes| ==> notes[k].Nullifier() == notes[k].record.note.nullifier;
    } else {
      var k :| 0 <= k < |notes| && notes[k].Nullifier() == rec.Nullifier();
      assert notes[k].record.note.nullifier == rec.record.note.nullifier;
    }
  }

  // ---- picking ------------------------------------------------------------

  lemma {:induction false} UnspentMembers(notes: seq<StoredNote>, asset: nat)
    ensures forall n :: n in Unspent(notes, asset) <==> n in notes && n.Holds(asset)
  {
    if notes != [] {
      UnspentMembers(notes[1..], asset);
    }
  }

  lemma {:induction false} FindInSorted(s: seq<StoredNote>, minValue: int)
    requires Sorted(s, ByValue)
    ensures FindAtLeast(s, minValue).None? ==> forall n :: n in s ==> n.Value() < minValue
    ensures FindAtLeast(s, minValue).Some? ==>
      var p := FindAtLeast(s, minValue).value;
      p in s && p.Value() >= minValue && forall n :: n in s && n.Value() >= minValue ==> p.Value() <= n.Value()
  {
    if s != [] && s[0].Value() < minValue {
      FindInSorted(s[1..], minValue);
    }
  }

  /** The pick is a least sufficient unspent note of the asset; there is none only if no
      unspent note of the asset suffices. */
  lemma PickIsLeast(notes: seq<StoredNote>, minValue: int, asset: nat)
    ensures PickSpendable(notes, minValue, asset).None? <==>
      forall n :: n in notes && n.Holds(asset) ==> n.Value() < minValue
    ensures PickSpendable(notes, minValue, asset).Some? ==>
      var p := PickSpendable(notes, minValue, asset).value;
      && p in notes && p.Holds(asset) && p.Value() >= minValue
      && forall n :: n in notes && n.Holds(asset) && n.Value() >= minValue ==> p.Value() <= n.Value()
  {
    UnspentMembers(notes, asset);
    SortByMembers(Unspent(notes, asset), ByValue);
    SortBySorted(Unspent(notes, asset), ByValue);
    FindInSorted(NotesOf(notes, asset), minValue);
  }

  // ---- funding a burner ---------------------------------------------------

  /** Where a recorded change note landed. */
  datatype Slot = Slot(nullifier: nat, secret: nat, path: NotePath, block: nat)

  /** What one attempt to submit a withdrawal met: the proof could not be built, the relay
      answered that the root was evicted, refused, or accepted; after acceptance the change
      note may fail to be recorded, and reading the burner's balance may fail. */
  datatype Attempt = BuildFailed | Evicted | Refused | Accepted(change: Slot, recorded: bool, balanceRead: bool)

  datatype FundError = NoNote | CannotBuild | RelayRefused | KeptEvicted | BalanceUnread

  function Withdrawn(amount: nat, fee: int): nat {
    if fee > 0 then amount + fee else amount
  }

  function ChangeNote(n: StoredNote, withdrawn: nat, slot: Slot): StoredNote
    requires withdrawn <= n.Value()
  {
    StoredNote(NoteRecord(Note(slot.nullifier, slot.secret, n.Value() - withdrawn, Some(n.record.note.AssetOf())), slot.path, slot.block), false)
  }

  /** The store after `n` was spent for `withdrawn`. */
  function Spend(notes: seq<StoredNote>, n: StoredNote, withdrawn: nat, slot: Slot, recorded: bool): seq<StoredNote>
    requires withdrawn <= n.Value()
  {
    MarkSpent(notes, n.Nullifier()) +
    (if n.Value() > withdrawn && recorded then [ChangeNote(n, withdrawn, slot)] else [])
  }

  /** Index of the attempt that settles the funding: the first that is not an eviction. */
  function Settling(attempts: seq<Attempt>): (k: nat)
    ensures k <= |attempts|
    ensures forall i :: 0 <= i < k ==> attempts[i].Evicted?
    ensures k < |attempts| ==> !attempts[k].Evicted?
  {
    if attempts == [] || !attempts[0].Evicted? then 0 else 1 + Settling(attempts[1..])
  }

  ghost predicate FreshSlot(notes: seq<StoredNote>, attempts: seq<Attempt>) {
    var k := Settling(attempts);
    k < |attempts| && attempts[k].Accepted? ==> !Known(notes, attempts[k].change.nullifier)
  }

  /** Value that leaves the native balance: what was withdrawn, and the change as well when
      it could not be recorded. */
  ghost function Outflow(notes: seq<StoredNote>, withdrawn: nat, attempts: seq<Attempt>): nat {
    var pick := PickSpendable(notes, withdrawn, 0);
    var k := Settling(attempts);
    if pick.None? || k == |attempts| || !attempts[k].Accepted? then 0
    else if attempts[k].recorded then withdrawn
    else pick.value.Value()
  }

  ghost function AfterFunding(notes: seq<StoredNote>, withdrawn: nat, attempts: seq<Attempt>): seq<StoredNote> {
    var pick := PickSpendable(notes, withdrawn, 0);
    var k := Settling(attempts);
    if pick.None? || k == |attempts| || !attempts[k].Accepted? then notes
    else
      PickIsLeast(notes, withdrawn, 0);
      Spend(notes, pick.value, withdrawn, attempts[k].change, attempts[k].recorded)
  }

  class NoteStore {
    var notes: seq<StoredNote>

    constructor ()
      ensures notes == []
    {
      notes := [];
    }

    method Upsert(rec: StoredNote)
      modifies this
      ensures notes == old(notes) + [rec]
    {
      notes := notes + [rec];
    }

    method AdoptShieldedNote(rec: StoredNote)
      modifies this
      ensures notes == Adopt(old(notes), rec)
    {
      for k := 0 to |notes|
        invariant notes == old(notes)
        invariant forall i :: 0 <= i < k ==> notes[i].Nullifier() != rec.Nullifier()
      {
        if notes[k].Nullifier() == rec.Nullifier() {
          return;
        }
      }
      Upsert(rec);
    }

    /** Three attempts at most; only an evicted root is retried.  A balance that cannot be
        read is an error that comes after the note was spent. */
    method FundBurner(amount: nat, fee: int, attempts: seq<Attempt>) returns (r: Result<nat, FundError>)
      requires |attempts| == 3
      modifies this
      ensures notes == AfterFunding(old(notes), Withdrawn(amount, fee), attempts)
      ensures r == Ok(Withdrawn(amount, fee)) <==>
        && PickSpendable(old(notes), Withdrawn(amount, fee), 0).Some? && Settling(attempts) < 3
        && attempts[Settling(attempts)].Accepted? && attempts[Settling(attempts)].balanceRead
      ensures r.Ok? ==> r.value - (if fee > 0 then fee else 0) == amount
      ensures r == Err(BalanceUnread) <==>
        && PickSpendable(old(notes), Withdrawn(amount, fee), 0).Some? && Settling(attempts) < 3
        && attempts[Settling(attempts)].Accepted? && !attempts[Settling(attempts)].balanceRead
      ensures r == Err(NoNote) <==> PickSpendable(old(notes), Withdrawn(amount, fee), 0).None?
      ensures r == Err(CannotBuild) ==> Settling(attempts) < 3 && attempts[Settling(attempts)].BuildFailed?
      ensures r == Err(RelayRefused) ==> Settling(attempts) < 3 && attempts[Settling(attempts)].Refused?
      ensures r == Err(KeptEvicted) <==>
        PickSpendable(old(notes), Withdrawn(amount, fee), 0).Some? && Settling(attempts) == 3
    {
      hide PickSpendable, MarkSpent;
      var withdrawn := if fee > 0 then amount + fee else amount;
      var pick := PickSpendable(notes, withdrawn, 0);
      if pick.None? {
        return Err(NoNote);
      }
      PickIsLeast(notes, withdrawn, 0);
      var note := pick.value;
      for attempt := 0 to 3
        invariant notes == old(notes)
        invariant forall i :: 0 <= i < attempt ==> attempts[i].Evicted?
      {
        match attempts[attempt] {
          case Evicted =>
          case BuildFailed =>
            assert Settling(attempts) == attempt;
            return Err(CannotBuild);
          case Refused =>
            assert Settling(attempts) == attempt;
            return Err(RelayRefused);
          case Accepted(change, recorded, balanceRead) =>
            notes := MarkSpent(notes, note.Nullifier());
            if note.Value() - withdrawn > 0 && recorded {
              Upsert(ChangeNote(note, withdrawn, change));
            }
            assert Settling(attempts) == attempt;
            return if balanceRead then Ok(withdrawn) else Err(BalanceUnread);
        }
      }
      return Err(KeptEvicted);
    }

    /** Cuts `amount` into rungs and deposits each as its own note.  `approved` says whether
        the approval that an asset needs first goes through; `landed` are the deposits
        that go through, in order; the one after them, if needed, fails. */
    method TopUpShielded(amount: int, assetId: Option<nat>, approved: bool, landed: seq<Slot>)
      returns (r: Result<TopUp, TopUpError>)
      modifies this
      ensures amount <= 0 ==> r == Ok(TopUp([], 0, 0)) && notes == old(notes)
      ensures r == Err(AssetTooLarge) <==> amount > 0 && assetId.Some? && assetId.value >= Pow2(64)
      ensures r == Err(NotApproved) <==> amount > 0 && assetId.Some? && assetId.value < Pow2(64) && !approved
      ensures r == Err(UseNative) <==> amount > 0 && assetId == Some(0) && approved
      ensures r in {Err(AssetTooLarge), Err(NotApproved), Err(UseNative)} ==> notes == old(notes)
      ensures amount > 0 && Depositable(assetId) && (assetId.Some? ==> approved) ==>
        var rungs := RungsFor(amount, assetId);
        var paid := rungs[..if |landed| < |rungs| then |landed| else |rungs|];
        && (r == Err(DepositFailed) <==> |landed| < |rungs|)
        && (r.Ok? <==> |landed| >= |rungs|)
        && (r.Ok? ==> r.value.rungs == rungs && r.value.deposited == amount + r.value.overshoot == Denominations.Sum(rungs)
                      && 0 <= r.value.overshoot < LadderOf(assetId)[0])
        && old(notes) <= notes && AllRecorded(notes[|old(notes)|..], paid, AddressOf(assetId), landed)
        && forall a :: ShieldedBalance(notes, a) == ShieldedBalance(old(notes), a)
                       + (if a == AddressOf(assetId) then Denominations.Sum(paid) else 0)
    {
      hide Denominations.Descending, Denominations.CoverPlan, Denominations.Sum, Denominations.Greedy, Denominations.DivisibilityChain, ShieldedBalance, RungNotes, AllRecorded, Pow2;
      Ladders();
      var ladder := LadderOf(assetId);
      var plan := Denominations.Cover(amount, ladder);
      var rungs, overshoot := plan.value.0, plan.value.1;
      if amount <= 0 {
        return Ok(TopUp([], 0, 0));
      }
      Denominations.CoverCheapest(amount, ladder, []);
      assert rungs == RungsFor(amount, assetId);
      PlanPositive(rungs, ladder);
      var asset := 0;
      if assetId.Some? {
        var address := AssetIds.PrecompileFor(assetId.value);
        if address.None? {
          return Err(AssetTooLarge);
        }
        if !approved {
          return Err(NotApproved);
        }
        asset := address.value;
      }
      var deposited := 0;
      Denominations.SumEmpty();
      RungNotesStart(asset, landed);
      assert rungs[..0] == [];
      for i := 0 to |rungs|
        invariant i <= |landed| && (assetId == Some(0) ==> i == 0)
        invariant deposited == Denominations.Sum(rungs[..i])
        invariant notes == old(notes) + RungNotes(rungs[..i], asset, landed)
      {
        if assetId == Some(0) {
          return Err(UseNative);
        }
        if i == |landed| {
          RungsAddAll(old(notes), rungs[..i], asset, landed);
          RungNotesRecorded(old(notes), rungs[..i], asset, landed);
          return Err(DepositFailed);
        }
        Upsert(RungNote(rungs[i], asset, landed[i]));
        deposited := deposited + rungs[i];
        RungNotesStep(rungs, asset, landed, i);
      }
      assert rungs[..|rungs|] == rungs;
      RungsAddAll(old(notes), rungs, asset, landed);
      RungNotesRecorded(old(notes), rungs, asset, landed);
      r := Ok(TopUp(rungs, overshoot, deposited));
    }
  }

  // ---- topping up ---------------------------------------------------------

  datatype TopUp = TopUp(rungs: seq<int>, overshoot: int, deposited: int)

  datatype TopUpError = AssetTooLarge | NotApproved | UseNative | DepositFailed

  function LadderOf(assetId: Option<nat>): seq<int> {
    if assetId.None? then Denominations.LADDER_NATIVE else Denominations.LADDER_USDC
  }

  /** The asset key of the notes a top-up makes; 0 where none can be made. */
  function AddressOf(assetId: Option<nat>): nat {
    if assetId.None? then 0
    else
      var address := AssetIds.PrecompileFor(assetId.value);
      if address.None? then 0 else address.value
  }

  /** Native, or an asset id the pool takes. */
  predicate Depositable(assetId: Option<nat>) {
    assetId.None? || 0 < assetId.value < Pow2(64)
  }

  /** The rungs a top-up needs, one deposit each. */
  ghost function RungsFor(amount: int, assetId: Option<nat>): seq<int> {
    Ladders();
    Denominations.DescendingPositive(LadderOf(assetId));
    Denominations.CoverPlan(amount, Denominations.Descending(LadderOf(assetId)))
  }

  lemma Ladders()
    ensures Denominations.Positive(Denominations.LADDER_NATIVE) && Denominations.DivisibilityChain(Denominations.LADDER_NATIVE)
    ensures Denominations.Positive(Denominations.LADDER_USDC) && Denominations.DivisibilityChain(Denominations.LADDER_USDC)
  {
  }

  lemma PlanPositive(s: seq<int>, ladder: seq<int>)
    requires Denominations.Plan(s, ladder) && Denominations.Positive(ladder)
    ensures forall k :: 0 <= k < |s| ==> s[k] > 0
  {
    forall k | 0 <= k < |s| ensures s[k] > 0 {
      var x := s[k];
      assert x in ladder;
    }
  }

  function RungNote(rung: nat, asset: nat, slot: Slot): StoredNote {
    StoredNote(NoteRecord(Note(slot.nullifier, slot.secret, rung, Some(asset)), slot.path, slot.block), false)
  }

  ghost function RungNotes(rungs: seq<int>, asset: nat, slots: seq<Slot>): (r: seq<StoredNote>)
    requires |rungs| <= |slots| && forall k :: 0 <= k < |rungs| ==> rungs[k] > 0
    ensures |r| == |rungs|
  {
    if rungs == [] then []
    else
      var n := |rungs| - 1;
      RungNotes(rungs[..n], asset, slots) + [RungNote(rungs[n], asset, slots[n])]
  }

  /** Unspent, with the leaf, the path and the block of the slot it landed in. */
  ghost predicate Recorded(n: StoredNote, value: int, asset: nat, slot: Slot) {
    && !n.spent && value >= 0
    && n.record.note.Commitment() == Node(Node(Num(value), Num(asset)), Node(Num(slot.nullifier), Num(slot.secret)))
    && n.record.path == slot.path && n.record.depositBlock == slot.block
  }

  lemma {:induction false} RungNoteRecorded(rungs: seq<int>, asset: nat, slots: seq<Slot>, i: nat)
    requires i < |rungs| <= |slots| && forall k :: 0 <= k < |rungs| ==> rungs[k] > 0
    ensures Recorded(RungNotes(rungs, asset, slots)[i], rungs[i], asset, slots[i])
    decreases |rungs|
  {
    if i < |rungs| - 1 {
      RungNoteRecorded(rungs[..|rungs| - 1], asset, slots, i);
    }
  }

  /** One stored note for each rung paid, in order. */
  ghost predicate AllRecorded(notes: seq<StoredNote>, paid: seq<int>, asset: nat, slots: seq<Slot>) {
    |notes| == |paid| <= |slots| && forall i :: 0 <= i < |paid| ==> Recorded(notes[i], paid[i], asset, slots[i])
  }

  lemma {:induction false} RungNotesRecorded(notes: seq<StoredNote>, rungs: seq<int>, asset: nat, slots: seq<Slot>)
    requires |rungs| <= |slots| && forall k :: 0 <= k < |rungs| ==> rungs[k] > 0
    ensures AllRecorded((notes + RungNotes(rungs, asset, slots))[|notes|..], rungs, asset, slots)
  {
    hide Recorded, RungNotes;
    assert (notes + RungNotes(rungs, asset, slots))[|notes|..] == RungNotes(rungs, asset, slots);
    forall i | 0 <= i < |rungs| ensures Recorded(RungNotes(rungs, asset, slots)[i], rungs[i], asset, slots[i]) {
      RungNoteRecorded(rungs, asset, slots, i);
    }
  }

  /** The asset key of a depositable asset, as a number. */
  lemma {:induction false} AddressExactly(assetId: Option<nat>)
    ensures assetId.Some? && 0 < assetId.value < Pow2(64) ==> AddressOf(assetId) == assetId.value * Pow2(128) + 0x0120_0000
  {
    hide Pow2, AssetIds.PrecompileFor;
    if assetId.Some? && 0 < assetId.value < Pow2(64) {
      AssetIds.PrecompileAsPower(assetId.value);
    }
  }

  /** The native ladder is in whole coins of 10^18 wei, the other in micro-dollars. */
  lemma LaddersExactly(assetId: Option<nat>, rung: int)
    ensures rung in LadderOf(assetId) <==>
      if assetId.None? then rung == 1_000_000_000_000_000_000 || rung == 5_000_000_000_000_000_000
      else rung == 500_000 || rung == 1_000_000 || rung == 5_000_000 || rung == 25_000_000 || rung == 100_000_000
  {
  }

  lemma {:induction false} RungNotesStart(asset: nat, slots: seq<Slot>)
    ensures RungNotes([], asset, slots) == []
  {
  }

  lemma {:induction false} RungNotesStep(rungs: seq<int>, asset: nat, slots: seq<Slot>, i: nat)
    requires i < |rungs| && i < |slots| && forall k :: 0 <= k < |rungs| ==> rungs[k] > 0
    ensures RungNotes(rungs[..i + 1], asset, slots) == RungNotes(rungs[..i], asset, slots) + [RungNote(rungs[i], asset, slots[i])]
    ensures Denominations.Sum(rungs[..i + 1]) == Denominations.Sum(rungs[..i]) + rungs[i]
  {
    assert rungs[..i + 1][..i] == rungs[..i] && rungs[..i + 1] == rungs[..i] + [rungs[i]];
    Denominations.SumAppend(rungs[..i], rungs[i]);
  }

  lemma {:induction false} RungsAddAll(notes: seq<StoredNote>, rungs: seq<int>, asset: nat, slots: seq<Slot>)
    requires |rungs| <= |slots| && forall k :: 0 <= k < |rungs| ==> rungs[k] > 0
    ensures forall a ::
      ShieldedBalance(notes + RungNotes(rungs, asset, slots), a)
      == ShieldedBalance(notes, a) + (if a == asset then Denominations.Sum(rungs) else 0)
  {
    forall a: nat {
      RungsAdd(notes, rungs, asset, slots, a);
    }
  }

  lemma {:induction false} RungsAdd(notes: seq<StoredNote>, rungs: seq<int>, asset: nat, slots: seq<Slot>, a: nat)
    requires |rungs| <= |slots| && forall k :: 0 <= k < |rungs| ==> rungs[k] > 0
    ensures ShieldedBalance(notes + RungNotes(rungs, asset, slots), a)
         == ShieldedBalance(notes, a) + (if a == asset then Denominations.Sum(rungs) else 0)
  {
    hide ShieldedBalance;
    if rungs == [] {
      assert notes + [] == notes;
    } else {
      var n := |rungs| - 1;
      var head, last := notes + RungNotes(rungs[..n], asset, slots), RungNote(rungs[n], asset, slots[n]);
      RungsAdd(notes, rungs[..n], asset, slots, a);
      BalanceAfterPush(head, last, a);
      assert notes + RungNotes(rungs, asset, slots) == head + [last];
      assert rungs == rungs[..n] + [rungs[n]];
      Denominations.SumAppend(rungs[..n], rungs[n]);
    }
  }

  lemma SpendKeepsDistinct(notes: seq<StoredNote>, n: StoredNote, withdrawn: nat, slot: Slot, recorded: bool)
    requires DistinctNullifiers(notes) && withdrawn <= n.Value() && !Known(notes, slot.nullifier)
    ensures DistinctNullifiers(Spend(notes, n, withdrawn, slot, recorded))
  {
    MarkKeepsNullifiers(notes, n.Nullifier());
  }

  lemma SpendConserves(notes: seq<StoredNote>, n: StoredNote, withdrawn: nat, slot: Slot, recorded: bool, asset: nat)
    requires DistinctNullifiers(notes) && n in notes && n.Holds(0) && withdrawn <= n.Value()
    ensures ShieldedBalance(Spend(notes, n, withdrawn, slot, recorded), asset)
         == ShieldedBalance(notes, asset) - (if asset != 0 then 0 else if recorded then withdrawn else n.Value())
  {
    hide ShieldedBalance, MarkSpent;
    var marked := MarkSpent(notes, n.Nullifier());
    BalanceAfterSpend(notes, n, asset);
    if n.Value() > withdrawn && recorded {
      BalanceAfterPush(marked, ChangeNote(n, withdrawn, slot), asset);
    } else {
      assert marked + [] == marked;
    }
  }

  /** One funding moves exactly its outflow, out of the native balance alone, and keeps
      nullifiers distinct. */
  lemma FundingConserves(notes: seq<StoredNote>, withdrawn: nat, attempts: seq<Attempt>, asset: nat)
    requires DistinctNullifiers(notes) && FreshSlot(notes, attempts)
    ensures DistinctNullifiers(AfterFunding(notes, withdrawn, attempts))
    ensures ShieldedBalance(AfterFunding(notes, withdrawn, attempts), asset)
         == ShieldedBalance(notes, asset) - (if asset == 0 then Outflow(notes, withdrawn, attempts) else 0)
  {
    hide PickSpendable, ShieldedBalance, Spend, DistinctNullifiers;
    var pick := PickSpendable(notes, withdrawn, 0);
    var k := Settling(attempts);
    if pick.Some? && k < |attempts| && attempts[k].Accepted? {
      var a := attempts[k];
      PickIsLeast(notes, withdrawn, 0);
      SpendKeepsDistinct(notes, pick.value, withdrawn, a.change, a.recorded);
      SpendConserves(notes, pick.value, withdrawn, a.change, a.recorded, asset);
    }
  }

  /** The change of an accepted and recorded funding is the store's last note, and its leaf
      is the one the withdrawal inserted: what is left of the value, native, under the new
      nullifier and secret, with the path and the block that were recorded for it. */
  lemma {:induction false} ChangeRecorded(notes: seq<StoredNote>, withdrawn: nat, attempts: seq<Attempt>)
    requires PickSpendable(notes, withdrawn, 0).Some? && PickSpendable(notes, withdrawn, 0).value.Value() > withdrawn
    requires var k := Settling(attempts); k < |attempts| && attempts[k].Accepted? && attempts[k].recorded
    ensures var left := PickSpendable(notes, withdrawn, 0).value.record.note.value - withdrawn;
      var after := AfterFunding(notes, withdrawn, attempts);
      |after| == |notes| + 1 && Recorded(after[|notes|], left, 0, attempts[Settling(attempts)].change)
    ensures AfterFunding(notes, withdrawn, attempts)[..|notes|]
         == MarkSpent(notes, PickSpendable(notes, withdrawn, 0).value.record.note.nullifier)
  {
    hide PickSpendable;
    PickIsLeast(notes, withdrawn, 0);
  }

  /** Without change, or when it was not recorded, the store only marks the note spent. */
  lemma {:induction false} NoChangeRecorded(notes: seq<StoredNote>, withdrawn: nat, attempts: seq<Attempt>)
    requires PickSpendable(notes, withdrawn, 0).Some?
    requires var k := Settling(attempts); k < |attempts| && attempts[k].Accepted?
    requires PickSpendable(notes, withdrawn, 0).value.Value() == withdrawn || !attempts[Settling(attempts)].recorded
    ensures AfterFunding(notes, withdrawn, attempts)
         == MarkSpent(notes, PickSpendable(notes, withdrawn, 0).value.record.note.nullifier)
  {
    hide PickSpendable;
    PickIsLeast(notes, withdrawn, 0);
  }

  /** A stored note whose slot is located at the leaf it stands for can be spent: a scan from
      its block on, if that is not later than the leaf's, gives the leaf's siblings. */
  lemma {:induction false} RecordedIsSpendable(n: StoredNote, value: nat, asset: nat, slot: Slot, h: seq<Log>, current: nat)
    requires Recorded(n, value, asset, slot)
    requires Chronological(h) && NonZero(LeavesOf(h)) && slot.path.index < |h| <= Pow2(DEPTH)
    requires Located(DEPTH, slot.path, LeavesOf(h)[..slot.path.index])
    requires h[slot.path.index].leaf == Node(Node(Num(value), Num(asset)), Node(Num(slot.nullifier), Num(slot.secret)))
    requires h[slot.path.index].leaf !in LeavesOf(h)[..slot.path.index]
    requires slot.block <= h[slot.path.index].block && forall k :: 0 <= k < |h| ==> h[k].block <= current
    ensures Reconstruct(n.record, LeavesOf(Between(h, slot.block, current)), LiveRoot(DEPTH, LeavesOf(h)))
         == Ok(Siblings(DEPTH, LeavesOf(h), slot.path.index))
  {
    hide Root, Siblings, LiveRoot, Reconstruct, Located, Between, Chronological, LeavesOf;
    BoundedScanSuffices(h, n.record, current);
  }

  // ---- runs ---------------------------------------------------------------

  /** What can happen to the store: a note deposited, one adopted, a burner funded. */
  datatype Event = Deposited(rec: NoteRecord) | Adopted(note: StoredNote) | Funded(amount: nat, fee: int, attempts: seq<Attempt>)

  ghost function Apply(notes: seq<StoredNote>, e: Event): seq<StoredNote> {
    match e
    case Deposited(rec) => notes + [StoredNote(rec, false)]
    case Adopted(n) => Adopt(notes, n)
    case Funded(amount, fee, attempts) => AfterFunding(notes, Withdrawn(amount, fee), attempts)
  }

  ghost predicate Fresh(notes: seq<StoredNote>, e: Event) {
    match e
    case Deposited(rec) => !Known(notes, rec.note.nullifier)
    case Adopted(_) => true
    case Funded(_, _, attempts) => FreshSlot(notes, attempts)
  }

  /** Net value an event brings to an asset. */
  ghost function Flow(notes: seq<StoredNote>, e: Event, asset: nat): int {
    match e
    case Deposited(rec) => if rec.note.AssetOf() == asset then rec.note.value else 0
    case Adopted(n) => if Known(notes, n.Nullifier()) then 0 else Worth(n, asset)
    case Funded(amount, fee, attempts) => var out: int := Outflow(notes, Withdrawn(amount, fee), attempts); if asset == 0 then -out else 0
  }

  ghost function Run(events: seq<Event>): seq<StoredNote> {
    if events == [] then [] else Apply(Run(events[..|events| - 1]), events[|events| - 1])
  }

  ghost predicate FreshRun(events: seq<Event>) {
    events != [] ==>
      FreshRun(events[..|events| - 1]) && Fresh(Run(events[..|events| - 1]), events[|events| - 1])
  }

  ghost function NetFlow(events: seq<Event>, asset: nat): int {
    if events == [] then 0
    else NetFlow(events[..|events| - 1], asset) + Flow(Run(events[..|events| - 1]), events[|events| - 1], asset)
  }

  lemma StepConserves(notes: seq<StoredNote>, e: Event, asset: nat)
    requires DistinctNullifiers(notes) && Fresh(notes, e)
    ensures DistinctNullifiers(Apply(notes, e))
    ensures ShieldedBalance(Apply(notes, e), asset) == ShieldedBalance(notes, asset) + Flow(notes, e, asset)
  {
    hide ShieldedBalance, AfterFunding, Outflow;
    match e
    case Deposited(rec) => BalanceAfterPush(notes, StoredNote(rec, false), asset);
    case Adopted(n) => BalanceAfterPush(notes, n, asset);
    case Funded(amount, fee, attempts) => FundingConserves(notes, Withdrawn(amount, fee), attempts, asset);
  }

  /** Over any run with fresh nullifiers each asset's balance is the value that came in
      less the value that went out. */
  lemma {:induction false} BalanceConserved(events: seq<Event>, asset: nat)
    requires FreshRun(events)
    ensures DistinctNullifiers(Run(events))
    ensures ShieldedBalance(Run(events), asset) == NetFlow(events, asset)
  {
    if events != [] {
      BalanceConserved(events[..|events| - 1], asset);
      StepConserves(Run(events[..|events| - 1]), events[|events| - 1], asset);
    }
  }
}
