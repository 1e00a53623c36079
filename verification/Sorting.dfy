/** Array.prototype.sort: a stable sort under a comparator, and what it fixes. */
module Sorting {
  ghost predicate TotalPreorder<T(!new)>(le: (T, T) -> bool) {
    && (forall x, y :: le(x, y) || le(y, x))
    && (forall x, y, z :: le(x, y) && le(y, z) ==> le(x, z))
  }

  ghost predicate Sorted<T>(s: seq<T>, le: (T, T) -> bool) {
    forall i, j :: 0 <= i < j < |s| ==> le(s[i], s[j])
  }

  /** `x` goes before the first element it does not exceed. */
  function InsertBy<T>(x: T, s: seq<T>, le: (T, T) -> bool): (r: seq<T>)
    ensures |r| == |s| + 1
  {
    if s == [] || le(x, s[0]) then [x] + s else [s[0]] + InsertBy(x, s[1..], le)
  }

  function SortBy<T>(s: seq<T>, le: (T, T) -> bool): (r: seq<T>)
    ensures |r| == |s|
  {
    if s == [] then [] else InsertBy(s[0], SortBy(s[1..], le), le)
  }

  lemma {:induction false} InsertByPermutes<T>(x: T, s: seq<T>, le: (T, T) -> bool)
    ensures multiset(InsertBy(x, s, le)) == multiset{x} + multiset(s)
  {
    if s != [] && !le(x, s[0]) {
      InsertByPermutes(x, s[1..], le);
      assert s == [s[0]] + s[1..];
    }
  }

  lemma {:induction false} InsertBySorted<T(!new)>(x: T, s: seq<T>, le: (T, T) -> bool)
    requires TotalPreorder(le) && Sorted(s, le)
    ensures Sorted(InsertBy(x, s, le), le)
  {
    if s != [] && !le(x, s[0]) {
      InsertBySorted(x, s[1..], le);
      InsertByPermutes(x, s[1..], le);
      var rest := InsertBy(x, s[1..], le);
      forall j | 0 <= j < |rest| ensures le(s[0], rest[j]) {
        assert rest[j] in multiset(rest);
        assert rest[j] == x || rest[j] in s[1..];
      }
    }
  }

  lemma {:induction false} SortByPermutes<T>(s: seq<T>, le: (T, T) -> bool)
    ensures multiset(SortBy(s, le)) == multiset(s)
  {
    if s != [] {
      SortByPermutes(s[1..], le);
      InsertByPermutes(s[0], SortBy(s[1..], le), le);
      assert s == [s[0]] + s[1..];
    }
  }

  lemma {:induction false} SortBySorted<T(!new)>(s: seq<T>, le: (T, T) -> bool)
    requires TotalPreorder(le)
    ensures Sorted(SortBy(s, le), le)
  {
    if s != [] {
      SortBySorted(s[1..], le);
      InsertBySorted(s[0], SortBy(s[1..], le), le);
    }
  }

  /** Being stable, the sort leaves a sorted sequence alone. */
  lemma {:induction false} SortByFixes<T>(s: seq<T>, le: (T, T) -> bool)
    requires Sorted(s, le)
    ensures SortBy(s, le) == s
  {
    if s != [] {
      SortByFixes(s[1..], le);
      assert s == [s[0]] + s[1..];
    }
  }

  lemma {:induction false} SortByMembers<T>(s: seq<T>, le: (T, T) -> bool)
    ensures forall x :: x in SortBy(s, le) <==> x in s
  {
    SortByPermutes(s, le);
    forall x ensures x in SortBy(s, le) <==> x in s {
      assert x in s <==> x in multiset(s);
      assert x in SortBy(s, le) <==> x in multiset(SortBy(s, le));
    }
  }

  lemma TailMultiset<T>(s: seq<T>)
    requires s != []
    ensures multiset(s[1..]) == multiset(s) - multiset{s[0]}
  {
    assert s == [s[0]] + s[1..];
  }

  lemma SameSize<T>(s: seq<T>, t: seq<T>)
    requires multiset(s) == multiset(t)
    ensures |s| == |t|
  {
    assert |s| == |multiset(s)| && |t| == |multiset(t)|;
  }

  lemma SameTails<T>(s: seq<T>, t: seq<T>)
    requires s != [] && t != [] && s[0] == t[0] && multiset(s) == multiset(t)
    ensures multiset(s[1..]) == multiset(t[1..])
    ensures s[1..] == t[1..] ==> s == t
  {
    TailMultiset(s);
    TailMultiset(t);
    assert s == [s[0]] + s[1..] && t == [t[0]] + t[1..];
  }

  ghost predicate Strict<T>(s: seq<T>, le: (T, T) -> bool) {
    forall i, j :: 0 <= i < j < |s| ==> !le(s[j], s[i])
  }

  lemma TailOrdered<T>(s: seq<T>, le: (T, T) -> bool)
    requires s != []
    ensures Sorted(s, le) ==> Sorted(s[1..], le)
    ensures Strict(s, le) ==> Strict(s[1..], le)
  {
  }

  /** A strictly ordered sequence is the only sorted arrangement of its elements. */
  lemma {:induction false} OnlyArrangement<T(!new)>(s: seq<T>, t: seq<T>, le: (T, T) -> bool)
    requires Strict(s, le) && Sorted(t, le) && multiset(s) == multiset(t)
    ensures s == t
  {
    hide Strict, Sorted;
    SameSize(s, t);
    if s != [] {
      LeastIsFirst(s, t, le);
      TailOrdered(s, le);
      TailOrdered(t, le);
      SameTails(s, t);
      OnlyArrangement(s[1..], t[1..], le);
    }
  }

  lemma LeastIsFirst<T(!new)>(s: seq<T>, t: seq<T>, le: (T, T) -> bool)
    requires Strict(s, le) && Sorted(t, le) && multiset(s) == multiset(t) && s != [] && t != []
    ensures s[0] == t[0]
  {
    assert s[0] in multiset(t) && t[0] in multiset(s);
    var j :| 0 <= j < |t| && t[j] == s[0];
    var i :| 0 <= i < |s| && s[i] == t[0];
    assert j == 0 || le(t[0], t[j]);
  }

  ghost predicate WithoutTies<T(!new)>(le: (T, T) -> bool) {
    (forall x :: le(x, x)) && (forall x, y :: le(x, y) && le(y, x) ==> x == y)
  }

  lemma SameHead<T(!new)>(s: seq<T>, t: seq<T>, le: (T, T) -> bool)
    requires WithoutTies(le) && Sorted(s, le) && Sorted(t, le) && multiset(s) == multiset(t)
    requires s != [] && t != []
    ensures s[0] == t[0]
  {
    assert s[0] in multiset(t) && t[0] in multiset(s);
    var j :| 0 <= j < |t| && t[j] == s[0];
    var i :| 0 <= i < |s| && s[i] == t[0];
    assert le(t[0], s[0]) && le(s[0], t[0]);
  }

  /** Under an order without ties, equal multisets have one sorted arrangement. */
  lemma {:induction false} SortedUnique<T(!new)>(s: seq<T>, t: seq<T>, le: (T, T) -> bool)
    requires WithoutTies(le) && Sorted(s, le) && Sorted(t, le) && multiset(s) == multiset(t)
    ensures s == t
  {
    hide WithoutTies, Sorted;
    SameSize(s, t);
    if s != [] {
      SameHead(s, t, le);
      TailOrdered(s, le);
      TailOrdered(t, le);
      SameTails(s, t);
      SortedUnique(s[1..], t[1..], le);
    }
  }
}
