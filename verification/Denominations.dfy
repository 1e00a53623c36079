/** The denomination ladder (web/src/denominations.ts): `decompose` rounds down,
    `cover` rounds up.  */
module Denominations {
  import opened Powers
  import opened Sorting
  import opened Wrappers

  const LADDER_USDC: seq<int> := [500_000, 1_000_000, 5_000_000, 25_000_000, 100_000_000]
  const LADDER_NATIVE: seq<int> := [1_000_000_000_000_000_000, 5_000_000_000_000_000_000]

  predicate Ge(a: int, b: int) {
    a >= b
  }

  function Descending(rungs: seq<int>): (d: seq<int>)
    ensures |d| == |rungs|
  {
    SortBy(rungs, Ge)
  }

  function Sum(rungs: seq<int>): int {
    if rungs == [] then 0 else rungs[0] + Sum(rungs[1..])
  }

  predicate Positive(rungs: seq<int>) {
    forall k :: 0 <= k < |rungs| ==> rungs[k] > 0
  }

  /** A multiset of rungs of `ladder`, as a list. */
  predicate Plan(s: seq<int>, ladder: seq<int>) {
    forall k :: 0 <= k < |s| ==> s[k] in ladder
  }

  /** Each rung divides the next: what the ladder's comment asks to keep true. */
  predicate DivisibilityChain(ladder: seq<int>) {
    forall k :: 0 <= k < |ladder| - 1 ==> ladder[k] > 0 && ladder[k + 1] % ladder[k] == 0
  }

  /** Sorted downwards, positive, and every rung divides all before it. */
  ghost predicate Chain(d: seq<int>) {
    && Positive(d)
    && forall i, j :: 0 <= i <= j < |d| ==> d[i] >= d[j] && d[i] % d[j] == 0
  }

  // ---- decompose ----------------------------------------------------------

  /** Greedy choice over rungs in the given order. */
  function Greedy(amount: int, d: seq<int>): (rungs: seq<int>)
    requires Positive(d)
    decreases |d|, if amount >= 0 then amount else 0
  {
    if d == [] then []
    else if amount >= d[0] then [d[0]] + Greedy(amount - d[0], d)
    else Greedy(amount, d[1..])
  }

  lemma DescendingPositive(ladder: seq<int>)
    requires Positive(ladder)
    ensures Positive(Descending(ladder))
    ensures forall x :: x in Descending(ladder) <==> x in ladder
  {
    SortByMembers(ladder, Ge);
    forall k | 0 <= k < |Descending(ladder)| ensures Descending(ladder)[k] > 0 {
      assert Descending(ladder)[k] in Descending(ladder);
    }
  }

  method Decompose(amount: int, ladder: seq<int>) returns (rungs: seq<int>, residue: int)
    requires Positive(ladder)
    ensures Positive(Descending(ladder))
    ensures rungs == Greedy(amount, Descending(ladder)) && residue == amount - Sum(rungs)
  {
    hide Descending, Sum;
    DescendingPositive(ladder);
    var d := Descending(ladder);
    var left := amount;
    SumEmpty();
    rungs := [];
    for i := 0 to |d|
      invariant rungs + Greedy(left, d[i..]) == Greedy(amount, d)
      invariant left == amount - Sum(rungs)
    {
      var r := d[i];
      while left >= r
        invariant rungs + Greedy(left, d[i..]) == Greedy(amount, d)
        invariant left == amount - Sum(rungs)
        decreases left
      {
        SumAppend(rungs, r);
        assert rungs + Greedy(left, d[i..]) == (rungs + [r]) + Greedy(left - r, d[i..]);
        rungs := rungs + [r];
        left := left - r;
      }
      assert d[i..][1..] == d[i + 1..];
    }
    residue := left;
  }

  lemma {:induction false} GreedyNoRungs(amount: int)
    ensures Greedy(amount, []) == []
  {
  }

  lemma SumEmpty()
    ensures Sum([]) == 0
  {
  }

  lemma {:induction false} SumAppend(s: seq<int>, r: int)
    ensures Sum(s + [r]) == Sum(s) + r
  {
    if s != [] {
      assert (s + [r])[1..] == s[1..] + [r];
      SumAppend(s[1..], r);
    }
  }

  lemma {:induction false} GreedyIsPlan(amount: int, d: seq<int>)
    requires Positive(d)
    ensures Plan(Greedy(amount, d), d) && 0 <= Sum(Greedy(amount, d))
    ensures amount >= 0 ==> Sum(Greedy(amount, d)) <= amount
    ensures amount < 0 ==> Greedy(amount, d) == []
    decreases |d|, if amount >= 0 then amount else 0
  {
    if d != [] {
      if amount >= d[0] {
        GreedyIsPlan(amount - d[0], d);
      } else {
        GreedyIsPlan(amount, d[1..]);
      }
    }
  }

  /** What is left is below every rung. */
  lemma {:induction false} ResidueBelow(amount: int, d: seq<int>)
    requires Positive(d) && d != []
    ensures amount - Sum(Greedy(amount, d)) < d[|d| - 1]
    decreases |d|, if amount >= 0 then amount else 0
  {
    if amount >= d[0] {
      ResidueBelow(amount - d[0], d);
    } else if |d| == 1 {
      GreedyIsPlan(amount, d[1..]);
    } else {
      ResidueBelow(amount, d[1..]);
    }
  }

  /** Greedy takes the biggest rungs first. */
  lemma {:induction false} GreedyBiggestFirst(amount: int, d: seq<int>)
    requires Positive(d) && Sorted(d, Ge)
    ensures Sorted(Greedy(amount, d), Ge)
    decreases |d|, if amount >= 0 then amount else 0
  {
    if d != [] {
      if amount >= d[0] {
        GreedyBiggestFirst(amount - d[0], d);
        GreedyIsPlan(amount - d[0], d);
        var rest := Greedy(amount - d[0], d);
        forall k | 0 <= k < |rest| ensures Ge(d[0], rest[k]) {
          var x := rest[k];
          assert x in d;
          var j :| 0 <= j < |d| && d[j] == x;
          assert j == 0 || Ge(d[0], d[j]);
        }
      } else {
        GreedyBiggestFirst(amount, d[1..]);
      }
    }
  }

  /** Both ways of cutting an amount list the biggest rungs first. */
  lemma {:induction false} PlansDescend(amount: int, ladder: seq<int>)
    requires Positive(ladder)
    ensures Positive(Descending(ladder)) && Sorted(Greedy(amount, Descending(ladder)), Ge)
    ensures ladder != [] ==> Sorted(CoverPlan(amount, Descending(ladder)), Ge)
  {
    DescendingPositive(ladder);
    SortBySorted(ladder, Ge);
    var d := Descending(ladder);
    GreedyBiggestFirst(amount, d);
    if ladder != [] {
      SortBySorted(Greedy(amount, d) + [d[|d| - 1]], Ge);
    }
  }

  /** Greedy on what greedy took takes the same again. */
  lemma {:induction false} GreedyAgain(amount: int, d: seq<int>)
    requires Positive(d)
    ensures Greedy(Sum(Greedy(amount, d)), d) == Greedy(amount, d)
    decreases |d|, if amount >= 0 then amount else 0
  {
    if d != [] {
      if amount >= d[0] {
        GreedyIsPlan(amount - d[0], d);
        GreedyAgain(amount - d[0], d);
      } else {
        GreedyIsPlan(amount, d[1..]);
        GreedyAgain(amount, d[1..]);
      }
    }
  }

  // ---- multiples ----------------------------------------------------------

  lemma MultipleOf(n: int, r: int, k: int)
    requires r > 0 && n == k * r
    ensures n % r == 0
  {
    assert (k + 1) * r == k * r + r;
    DivUnique(n, r, k);
  }

  lemma AddMultiples(a: int, b: int, r: int)
    requires r > 0 && a % r == 0 && b % r == 0
    ensures (a + b) % r == 0 && (a - b) % r == 0
  {
    var p, q := a / r, b / r;
    assert a == p * r && b == q * r;
    assert a + b == (p + q) * r && a - b == (p - q) * r;
    MultipleOf(a + b, r, p + q);
    MultipleOf(a - b, r, p - q);
  }

  lemma SameRemainder(a: int, b: int, r: int)
    requires r > 0 && b % r == 0
    ensures (a + b) % r == 0 <==> a % r == 0
  {
    if a % r == 0 {
      AddMultiples(a, b, r);
    }
    if (a + b) % r == 0 {
      AddMultiples(a + b, b, r);
    }
  }

  lemma MultipleGap(a: int, b: int, r: int)
    requires r > 0 && a % r == 0 && b % r == 0 && a < b + r
    ensures a <= b
  {
    AddMultiples(a, b, r);
    if a > b {
      SmallMultiple(a - b, r);
    }
  }

  lemma DividesTrans(a: int, b: int, c: int)
    requires b > 0 && c > 0 && a % b == 0 && b % c == 0
    ensures a % c == 0
  {
    var p, q := a / b, b / c;
    assert a == p * b && b == q * c;
    assert p * (q * c) == (p * q) * c;
    MultipleOf(a, c, p * q);
  }

  /** Every plan over a chain totals a multiple of the smallest rung. */
  lemma {:induction false} PlanIsMultiple(s: seq<int>, d: seq<int>)
    requires Chain(d) && d != [] && Plan(s, d)
    ensures Sum(s) % d[|d| - 1] == 0 && Sum(s) >= 0
  {
    if s != [] {
      PlanIsMultiple(s[1..], d);
      assert s[0] in d;
      AddMultiples(s[0], Sum(s[1..]), d[|d| - 1]);
    }
  }

  // ---- greedy is optimal on a chain ---------------------------------------

  lemma ChainHead(d: seq<int>, r: int)
    requires Chain(d) && r in d
    ensures 0 < r <= d[0] && d[0] % r == 0
    ensures r != d[0] ==> r in d[1..]
    ensures Chain(d[1..])
  {
    var k :| 0 <= k < |d| && d[k] == r;
    assert d[0] >= d[k] && d[0] % d[k] == 0;
    if k > 0 {
      assert d[1..][k - 1] == r;
    }
  }

  lemma SmallMultiple(n: int, r: int)
    requires 0 <= n < r && n % r == 0
    ensures n == 0
  {
  }

  /** Dropping whole multiples of one rung never costs notes. */
  lemma {:induction false} DropMultiples(x: int, z: int, r: int, d: seq<int>)
    requires Chain(d) && r in d && 0 <= z < r && z <= x && (x - z) % r == 0
    ensures |Greedy(z, d)| <= |Greedy(x, d)|
    decreases |d|, x
  {
    ChainHead(d, r);
    var r0 := d[0];
    if x >= r0 {
      AddMultiples(x - z, r0, r);
      MultipleGap(0, (x - z) - r0, r);
      assert (x - r0) - z == (x - z) - r0;
      DropMultiples(x - r0, z, r, d);
    } else if r == r0 {
      SmallMultiple(x - z, r);
    } else {
      DropMultiples(x, z, r, d[1..]);
    }
  }

  /** One more coin raises the greedy count by at most one. */
  lemma {:induction false} AddCoin(x: int, r: int, d: seq<int>)
    requires Chain(d) && r in d && x >= 0
    ensures |Greedy(x + r, d)| <= |Greedy(x, d)| + 1
    decreases |d|, x
  {
    ChainHead(d, r);
    var r0 := d[0];
    if x >= r0 {
      assert (x - r0) + r == (x + r) - r0;
      AddCoin(x - r0, r, d);
    } else if r == r0 {
      assert (x + r) - r0 == x;
    } else if x + r < r0 {
      AddCoin(x, r, d[1..]);
    } else {
      var z := x + r - r0;
      AddMultiples(r0, r, r) by {
        MultipleOf(r, r, 1);
      }
      assert x - z == r0 - r;
      DropMultiples(x, z, r, d[1..]);
    }
  }

  /** No plan reaches its total with fewer notes than greedy. */
  lemma {:induction false} GreedyFewest(s: seq<int>, d: seq<int>)
    requires Chain(d) && Plan(s, d)
    ensures |Greedy(Sum(s), d)| <= |s|
  {
    if s == [] {
      GreedyIsPlan(0, d);
      GreedyOfZero(d);
    } else {
      GreedyFewest(s[1..], d);
      PlanIsMultiple(s[1..], d) by {
        assert s[0] in d;
      }
      assert Sum(s) == Sum(s[1..]) + s[0];
      AddCoin(Sum(s[1..]), s[0], d);
    }
  }

  lemma {:induction false} GreedyOfZero(d: seq<int>)
    requires Positive(d)
    ensures Greedy(0, d) == []
  {
    if d != [] {
      GreedyOfZero(d[1..]);
    }
  }

  lemma LadderChain(ladder: seq<int>)
    requires Positive(ladder) && DivisibilityChain(ladder)
    ensures Chain(Descending(ladder))
    ensures forall x :: x in Descending(ladder) <==> x in ladder
    ensures ladder != [] ==> Descending(ladder)[|ladder| - 1] == ladder[0]
  {
    DescendingPositive(ladder);
    SortBySorted(ladder, Ge);
    var d := Descending(ladder);
    forall i, j | 0 <= i <= j < |d| ensures d[i] >= d[j] && d[i] % d[j] == 0 {
      assert d[i] in ladder && d[j] in ladder;
      var a :| 0 <= a < |ladder| && ladder[a] == d[i];
      var b :| 0 <= b < |ladder| && ladder[b] == d[j];
      if i == j {
        MultipleOf(d[i], d[j], 1);
      } else if b <= a {
        LadderDivides(ladder, b, a);
      } else {
        LadderDivides(ladder, a, b);
        assert d[i] == d[j];
        MultipleOf(d[i], d[j], 1);
      }
    }
    if ladder != [] {
      var m := d[|d| - 1];
      assert m in ladder && ladder[0] in d;
      var b :| 0 <= b < |ladder| && ladder[b] == m;
      LadderDivides(ladder, 0, b);
      var k :| 0 <= k < |d| && d[k] == ladder[0];
      assert d[k] >= m;
    }
  }

  lemma {:induction false} LadderDivides(ladder: seq<int>, i: nat, j: nat)
    requires Positive(ladder) && DivisibilityChain(ladder) && i <= j < |ladder|
    ensures ladder[j] % ladder[i] == 0 && ladder[j] >= ladder[i]
  {
    if i == j {
      MultipleOf(ladder[j], ladder[i], 1);
    } else {
      LadderDivides(ladder, i, j - 1);
      DividesTrans(ladder[j], ladder[j - 1], ladder[i]);
      MultipleAtLeast(ladder[j], ladder[j - 1]);
    }
  }

  lemma MultipleAtLeast(a: int, b: int)
    requires a > 0 && b > 0 && a % b == 0
    ensures a >= b
  {
    if a < b {
      SmallMultiple(a, b);
    }
  }

  lemma PlanNeedsRungs(s: seq<int>, ladder: seq<int>)
    requires Plan(s, ladder) && s != []
    ensures ladder != []
  {
    assert s[0] in ladder;
  }

  /** `decompose` on a divisibility chain: it never exceeds the amount, leaves less than the
      smallest rung, no plan fits a larger total, and none has its total in fewer notes. */
  lemma {:induction false} DecomposeOptimal(amount: int, ladder: seq<int>, plan: seq<int>)
    requires Positive(ladder) && DivisibilityChain(ladder) && amount >= 0
    requires Plan(plan, ladder)
    ensures Positive(Descending(ladder))
    ensures var rungs := Greedy(amount, Descending(ladder));
      && Plan(rungs, ladder)
      && 0 <= amount - Sum(rungs) && (ladder != [] ==> amount - Sum(rungs) < ladder[0])
      && (Sum(plan) <= amount ==> Sum(plan) <= Sum(rungs))
      && (Sum(plan) == Sum(rungs) ==> |rungs| <= |plan|)
  {
    LadderChain(ladder);
    var d := Descending(ladder);
    var rungs := Greedy(amount, d);
    GreedyIsPlan(amount, d);
    if plan != [] {
      PlanNeedsRungs(plan, ladder);
    }
    if ladder != [] {
      ResidueBelow(amount, d);
      assert Plan(plan, d);
      PlanIsMultiple(plan, d);
      PlanIsMultiple(rungs, d);
      if Sum(plan) <= amount {
        MultipleGap(Sum(plan), Sum(rungs), ladder[0]);
      }
      GreedyFewest(plan, d);
      GreedyAgain(amount, d);
    }
  }

  lemma HeadStep(x: int, d: seq<int>)
    requires Positive(d) && d != []
    ensures x >= d[0] ==> Greedy(x, d) == [d[0]] + Greedy(x - d[0], d)
    ensures x < d[0] ==> Greedy(x, d) == Greedy(x, d[1..])
  {
  }

  /** Without divisibility greedy can waste notes: 6 over rungs 1, 3, 4 is 4 + 1 + 1, not 3 + 3. */
  lemma GreedyCanWaste()
    ensures Descending([1, 3, 4]) == [4, 3, 1] && !DivisibilityChain([1, 3, 4])
    ensures Greedy(6, [4, 3, 1]) == [4, 1, 1] && Plan([3, 3], [1, 3, 4]) && Sum([3, 3]) == 6 == Sum([4, 1, 1])
  {
    var ladder := [1, 3, 4];
    assert ladder[1] == 3 && ladder[1 + 1] == 4 && ladder[1 + 1] % ladder[1] == 1;
    DescendingThree();
    hide Greedy;
    assert [4, 3, 1][1..] == [3, 1] && [3, 1][1..] == [1];
    HeadStep(6, [4, 3, 1]);
    HeadStep(2, [4, 3, 1]);
    HeadStep(2, [3, 1]);
    HeadStep(2, [1]);
    HeadStep(1, [1]);
    GreedyOfZero([1]);
  }

  lemma DescendingThree()
    ensures Descending([1, 3, 4]) == [4, 3, 1]
  {
    assert [1, 3, 4][1..] == [3, 4] && [3, 4][1..] == [4] && [4][1..] == [];
    assert SortBy([4], Ge) == [4];
    assert SortBy([3, 4], Ge) == [4, 3];
    assert SortBy([1, 3, 4], Ge) == InsertBy(1, [4, 3], Ge) == [4] + InsertBy(1, [4, 3][1..], Ge);
    assert [4, 3][1..] == [3] && InsertBy(1, [3], Ge) == [3] + InsertBy(1, [], Ge);
  }

  // ---- cover --------------------------------------------------------------

  /** The rungs `cover` picks: what greedy takes, and one smallest rung if that falls short. */
  ghost function CoverPlan(amount: int, d: seq<int>): seq<int>
    requires Positive(d) && d != []
  {
    var rungs := Greedy(amount, d);
    if Sum(rungs) == amount then rungs else Descending(rungs + [d[|d| - 1]])
  }

  lemma {:induction false} SumInsert(x: int, s: seq<int>)
    ensures Sum(InsertBy(x, s, Ge)) == x + Sum(s)
  {
    if s != [] && !Ge(x, s[0]) {
      SumInsert(x, s[1..]);
    }
  }

  lemma {:induction false} SumDescending(s: seq<int>)
    ensures Sum(Descending(s)) == Sum(s)
  {
    if s != [] {
      SumDescending(s[1..]);
      SumInsert(s[0], Descending(s[1..]));
    }
  }

  method Reverse(s: seq<int>) returns (r: seq<int>)
    ensures |r| == |s| && forall k :: 0 <= k < |s| ==> r[k] == s[|s| - 1 - k]
  {
    r := [];
    for i := 0 to |s|
      invariant |r| == i && forall k :: 0 <= k < i ==> r[k] == s[|s| - 1 - k]
    {
      r := r + [s[|s| - 1 - i]];
    }
  }

  /** `asc.find((r) => r >= residue)`, as an index; |asc| when there is none. */
  method FindAtLeast(asc: seq<int>, residue: int) returns (i: nat)
    ensures i <= |asc| && forall k :: 0 <= k < i ==> asc[k] < residue
    ensures i < |asc| ==> asc[i] >= residue
  {
    i := 0;
    while i < |asc| && asc[i] < residue
      invariant i <= |asc| && forall k :: 0 <= k < i ==> asc[k] < residue
    {
      i := i + 1;
    }
  }

  /** None stands for the exception the source throws on an empty ladder. */
  method Cover(amount: int, ladder: seq<int>) returns (r: Option<(seq<int>, int)>)
    requires Positive(ladder)
    ensures Positive(Descending(ladder))
    ensures r.None? <==> amount > 0 && ladder == []
    ensures amount <= 0 ==> r == Some(([], 0))
    ensures amount > 0 && ladder != [] ==>
      r.value.0 == CoverPlan(amount, Descending(ladder)) && r.value.1 == Sum(r.value.0) - amount
  {
    hide Descending, Sum, Greedy;
    DescendingPositive(ladder);
    var d := Descending(ladder);
    if amount <= 0 {
      return Some(([], 0));
    }
    if ladder == [] {
      assert d == [];
      GreedyNoRungs(amount);
      SumEmpty();
    }
    var asc := Reverse(d);
    var rungs, residue := Decompose(amount, ladder);
    if residue == 0 {
      return Some((rungs, 0));
    }
    if asc == [] {
      return None;
    }
    var i := FindAtLeast(asc, residue);
    var top := if i < |asc| then asc[i] else asc[|asc| - 1];
    assert asc[0] == d[|d| - 1] && (i == 0 || asc[0] < residue);
    ResidueBelow(amount, d);
    SumAppend(rungs, top);
    SumDescending(rungs + [top]);
    return Some((Descending(rungs + [top]), top - residue));
  }

  /** On a chain `cover` reaches at least the amount, overshoots by less than the smallest
      rung, and no plan that reaches the amount has a smaller total. */
  lemma {:induction false} CoverCheapest(amount: int, ladder: seq<int>, plan: seq<int>)
    requires Positive(ladder) && DivisibilityChain(ladder) && ladder != [] && amount > 0
    requires Plan(plan, ladder)
    ensures Positive(Descending(ladder))
    ensures var rungs := CoverPlan(amount, Descending(ladder));
      && Plan(rungs, ladder)
      && 0 <= Sum(rungs) - amount < ladder[0]
      && (Sum(plan) >= amount ==> Sum(plan) >= Sum(rungs))
  {
    LadderChain(ladder);
    var d := Descending(ladder);
    var taken, rungs := Greedy(amount, d), CoverPlan(amount, d);
    GreedyIsPlan(amount, d);
    ResidueBelow(amount, d);
    CoverTotal(amount, d);
    PlanIsMultiple(taken, d);
    AddMultiples(Sum(taken), ladder[0], ladder[0]) by {
      MultipleOf(ladder[0], ladder[0], 1);
    }
    assert Plan(plan, d);
    PlanIsMultiple(plan, d);
    if Sum(plan) >= amount {
      MultipleGap(Sum(rungs), Sum(plan), ladder[0]);
    }
  }

  lemma {:induction false} CoverTotal(amount: int, d: seq<int>)
    requires Positive(d) && d != []
    ensures Sum(CoverPlan(amount, d)) == Sum(Greedy(amount, d)) + (if Sum(Greedy(amount, d)) == amount then 0 else d[|d| - 1])
    ensures |CoverPlan(amount, d)| == |Greedy(amount, d)| + (if Sum(Greedy(amount, d)) == amount then 0 else 1)
    ensures Plan(CoverPlan(amount, d), d)
  {
    var m := d[|d| - 1];
    var taken := Greedy(amount, d);
    GreedyIsPlan(amount, d);
    SumAppend(taken, m);
    SumDescending(taken + [m]);
    SortByMembers(taken + [m], Ge);
    forall k | 0 <= k < |CoverPlan(amount, d)| ensures CoverPlan(amount, d)[k] in d {
      assert CoverPlan(amount, d)[k] in CoverPlan(amount, d);
    }
  }

  // ---- when cover also uses the fewest notes ------------------------------

  /** Greedy reaches every multiple of the smallest rung exactly. */
  lemma {:induction false} GreedyExact(x: int, d: seq<int>)
    requires Chain(d) && d != [] && x >= 0 && x % d[|d| - 1] == 0
    ensures Sum(Greedy(x, d)) == x
  {
    GreedyIsPlan(x, d);
    ResidueBelow(x, d);
    PlanIsMultiple(Greedy(x, d), d);
    MultipleGap(x, Sum(Greedy(x, d)), d[|d| - 1]);
  }

  /** Some rung above the smallest divides `total`. */
  ghost predicate Carries(total: int, d: seq<int>)
    requires Positive(d) && d != []
  {
    exists r :: r in d && r > d[|d| - 1] && total % r == 0
  }

  /** Adding one smallest rung costs a note unless it completes a larger one. */
  lemma {:induction false} AddSmallest(x: int, d: seq<int>)
    requires Chain(d) && d != [] && x >= 0 && x % d[|d| - 1] == 0
    ensures Carries(x + d[|d| - 1], d) ==> |Greedy(x + d[|d| - 1], d)| <= |Greedy(x, d)|
    ensures !Carries(x + d[|d| - 1], d) ==> |Greedy(x + d[|d| - 1], d)| == |Greedy(x, d)| + 1
    decreases |d|, x
  {
    hide Greedy, Carries;
    var m, r0 := d[|d| - 1], d[0];
    ChainHead(d, m);
    HeadStep(x, d);
    HeadStep(x + m, d);
    if x >= r0 {
      AddMultiples(x, r0, m);
      AddSmallest(x - r0, d);
      CarriesLess(x + m, d);
      assert (x - r0) + m == (x + m) - r0;
    } else if x + m < r0 {
      AddSmallest(x, d[1..]);
      CarriesTail(x + m, d);
    } else {
      CompleteHead(x, d);
    }
  }

  lemma CarriesLess(total: int, d: seq<int>)
    requires Chain(d) && d != []
    ensures Carries(total - d[0], d) <==> Carries(total, d)
  {
    forall r | r in d ensures total % r == 0 <==> (total - d[0]) % r == 0 {
      ChainHead(d, r);
      SameRemainder(total - d[0], d[0], r);
    }
  }

  lemma CarriesTail(total: int, d: seq<int>)
    requires Positive(d) && |d| > 1 && 0 < total < d[0]
    ensures Positive(d[1..])
    ensures Carries(total, d[1..]) <==> Carries(total, d)
  {
    if Carries(total, d[1..]) {
      var r :| r in d[1..] && r > d[1..][|d| - 2] && total % r == 0;
      assert r in d;
    }
    if Carries(total, d) {
      var r :| r in d && r > d[|d| - 1] && total % r == 0;
      NotHead(total, d, r);
      assert r > d[1..][|d| - 2];
    }
  }

  lemma NotHead(total: int, d: seq<int>, r: int)
    requires Positive(d) && |d| > 1 && 0 < total < d[0] && r in d && total % r == 0
    ensures r in d[1..]
  {
    if r == d[0] {
      SmallMultiple(total, r);
    }
    var k :| 0 <= k < |d| && d[k] == r;
    assert d[1..][k - 1] == r;
  }

  lemma CompleteHead(x: int, d: seq<int>)
    requires Chain(d) && d != [] && 0 <= x < d[0] && x % d[|d| - 1] == 0
    requires x + d[|d| - 1] >= d[0]
    ensures Carries(x + d[|d| - 1], d) ==> |Greedy(x + d[|d| - 1], d)| <= |Greedy(x, d)|
    ensures !Carries(x + d[|d| - 1], d) ==> |Greedy(x + d[|d| - 1], d)| == |Greedy(x, d)| + 1
  {
    var m, r0 := d[|d| - 1], d[0];
    ChainHead(d, m);
    AddMultiples(x, m, m) by {
      MultipleOf(m, m, 1);
    }
    MultipleGap(x + m, r0, m);
    assert x + m == r0;
    GreedyOfZero(d);
    assert Greedy(r0, d) == [r0] + Greedy(0, d);
    if r0 > m {
      MultipleOf(r0, r0, 1);
      assert r0 in d && (x + m) % r0 == 0;
      assert Carries(x + m, d);
      GreedyExact(x, d);
      assert Greedy(x, d) != [];
    } else {
      assert !Carries(x + m, d);
    }
  }

  lemma SamePlans(s: seq<int>, a: seq<int>, b: seq<int>)
    requires Plan(s, a)
    requires forall x :: x in a ==> x in b
    ensures Plan(s, b)
  {
    forall k | 0 <= k < |s| ensures s[k] in b {
      var x := s[k];
      assert x in a;
    }
  }

  /** A plan has the fewest notes for its total exactly when greedy has no fewer. */
  lemma {:induction false} FewestIsGreedy(rungs: seq<int>, ladder: seq<int>, d: seq<int>)
    requires Chain(d) && d != [] && Plan(rungs, ladder)
    requires forall x :: x in d <==> x in ladder
    ensures (forall plan :: Plan(plan, ladder) && Sum(plan) == Sum(rungs) ==> |rungs| <= |plan|)
        <==> |rungs| <= |Greedy(Sum(rungs), d)|
  {
    hide Greedy, Sum, Plan;
    SamePlans(rungs, ladder, d);
    PlanIsMultiple(rungs, d);
    var best := Greedy(Sum(rungs), d);
    GreedyExact(Sum(rungs), d);
    GreedyIsPlan(Sum(rungs), d);
    SamePlans(best, d, ladder);
    assert Plan(best, ladder) && Sum(best) == Sum(rungs);
    forall plan | Plan(plan, ladder) && Sum(plan) == Sum(rungs) ensures |best| <= |plan| {
      SamePlans(plan, ladder, d);
      GreedyFewest(plan, d);
    }
  }

  lemma {:induction false} CoverCount(amount: int, d: seq<int>)
    requires Chain(d) && d != [] && amount > 0
    ensures |CoverPlan(amount, d)| <= |Greedy(Sum(CoverPlan(amount, d)), d)|
        <==> amount % d[|d| - 1] == 0 || !Carries(Sum(CoverPlan(amount, d)), d)
  {
    hide Greedy, CoverPlan, Carries;
    var taken := Greedy(amount, d);
    CoverTotal(amount, d);
    GreedyAgain(amount, d);
    GreedyIsPlan(amount, d);
    PlanIsMultiple(taken, d);
    if amount % d[|d| - 1] == 0 {
      GreedyExact(amount, d);
    } else {
      AddSmallest(Sum(taken), d);
    }
  }

  /** `cover` uses the fewest notes for its total exactly when the amount is on the ladder,
      or no rung above the smallest divides that total. */
  lemma CoverFewestExactly(amount: int, ladder: seq<int>)
    requires Positive(ladder) && DivisibilityChain(ladder) && ladder != [] && amount > 0
    ensures Positive(Descending(ladder))
    ensures var rungs := CoverPlan(amount, Descending(ladder));
      (forall plan :: Plan(plan, ladder) && Sum(plan) == Sum(rungs) ==> |rungs| <= |plan|)
      <==> amount % ladder[0] == 0 || (forall r :: r in ladder && r > ladder[0] ==> Sum(rungs) % r != 0)
  {
    hide Greedy, CoverPlan, Chain, Descending;
    LadderChain(ladder);
    var d := Descending(ladder);
    assert Positive(d) && |d| == |ladder| by {
      DescendingPositive(ladder);
    }
    CoverTotal(amount, d);
    assert Plan(CoverPlan(amount, d), ladder);
    FewestIsGreedy(CoverPlan(amount, d), ladder, d);
    CoverCount(amount, d);
  }

  lemma DescendingTens()
    ensures Descending([10, 50]) == [50, 10]
    ensures Descending([10, 10, 10, 10] + [10]) == [10, 10, 10, 10, 10]
  {
    assert [10, 50][1..] == [50] && [50][1..] == [];
    assert SortBy([50], Ge) == [50];
    assert InsertBy(10, [50], Ge) == [50] + InsertBy(10, [50][1..], Ge);
    assert [10, 10, 10, 10] + [10] == [10, 10, 10, 10, 10];
    assert Sorted([10, 10, 10, 10, 10], Ge);
    SortByFixes([10, 10, 10, 10, 10], Ge);
  }

  lemma FourTens()
    ensures Greedy(49, [50, 10]) == [10, 10, 10, 10]
  {
    hide Greedy;
    assert [50, 10][1..] == [10] && [10][1..] == [];
    HeadStep(49, [50, 10]);
    HeadStep(49, [10]);
    HeadStep(39, [10]);
    HeadStep(29, [10]);
    HeadStep(19, [10]);
    HeadStep(9, [10]);
    GreedyNoRungs(9);
  }

  /** 4.9 over rungs 1 and 5 is covered by five 1s, where one 5 has the same total. */
  lemma CoverNotFewest()
    ensures DivisibilityChain([10, 50]) && Descending([10, 50]) == [50, 10]
    ensures CoverPlan(49, [50, 10]) == [10, 10, 10, 10, 10] && Sum([10, 10, 10, 10, 10]) == 50 == Sum([50])
  {
    hide Greedy, Descending;
    DescendingTens();
    FourTens();
    Tens(4);
    Tens(5);
    assert [10, 10, 10, 10] == seq(4, _ => 10) && [10, 10, 10, 10, 10] == seq(5, _ => 10);
    assert [50][1..] == [];
  }

  lemma {:induction false} Tens(n: nat)
    ensures Sum(seq(n, _ => 10)) == 10 * n
  {
    if n > 0 {
      Tens(n - 1);
      assert seq(n, _ => 10)[1..] == seq(n - 1, _ => 10);
    }
  }
}
