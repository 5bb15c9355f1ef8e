/** Sorting as the source uses it: `sorted` and `ORDER BY`, a stable sort by a total preorder. */
module Ordering {

  ghost predicate TotalPreorder<T(!new)>(le: (T, T) -> bool) {
    && (forall a, b :: le(a, b) || le(b, a))
    && (forall a, b, c :: le(a, b) && le(b, c) ==> le(a, c))
  }

  predicate Sorted<T>(xs: seq<T>, le: (T, T) -> bool) {
    forall i, j :: 0 <= i < j < |xs| ==> le(xs[i], xs[j])
  }

  /** Insert x after every element that may stay before it. */
  function Insert<T>(xs: seq<T>, x: T, le: (T, T) -> bool): (r: seq<T>)
    ensures multiset(r) == multiset(xs) + multiset{x}
  {
    if xs == [] || le(xs[|xs| - 1], x) then
      xs + [x]
    else
      assert xs == xs[..|xs| - 1] + [xs[|xs| - 1]];
      Insert(xs[..|xs| - 1], x, le) + [xs[|xs| - 1]]
  }

  function StableSort<T>(xs: seq<T>, le: (T, T) -> bool): (r: seq<T>)
    ensures multiset(r) == multiset(xs)
  {
    if xs == [] then []
    else
      assert xs == xs[..|xs| - 1] + [xs[|xs| - 1]];
      Insert(StableSort(xs[..|xs| - 1], le), xs[|xs| - 1], le)
  }

  lemma SameElements<T>(xs: seq<T>, ys: seq<T>)
    requires multiset(xs) == multiset(ys)
    ensures |xs| == |ys|
    ensures forall x :: x in xs <==> x in ys
  {
    assert |xs| == |multiset(xs)| == |multiset(ys)| == |ys|;
    forall x ensures x in xs <==> x in ys {
      assert x in xs <==> x in multiset(xs);
      assert x in ys <==> x in multiset(ys);
    }
  }

  lemma AppendSorted<T(!new)>(xs: seq<T>, x: T, le: (T, T) -> bool)
    requires TotalPreorder(le) && Sorted(xs, le)
    requires forall y :: y in xs ==> le(y, x)
    ensures Sorted(xs + [x], le)
  {
    forall i | 0 <= i < |xs| ensures le(xs[i], x) {
      assert xs[i] in xs;
    }
  }

  lemma LastIsGreatest<T(!new)>(xs: seq<T>, le: (T, T) -> bool)
    requires TotalPreorder(le) && Sorted(xs, le) && xs != []
    ensures forall y :: y in xs ==> le(y, xs[|xs| - 1])
  {
    assert le(xs[|xs| - 1], xs[|xs| - 1]);
  }

  lemma {:induction false} InsertSorted<T(!new)>(xs: seq<T>, x: T, le: (T, T) -> bool)
    requires TotalPreorder(le) && Sorted(xs, le)
    ensures Sorted(Insert(xs, x, le), le)
  {
    if xs != [] {
      LastIsGreatest(xs, le);
      var front, last := xs[..|xs| - 1], xs[|xs| - 1];
      if le(last, x) {
        AppendSorted(xs, x, le);
      } else {
        InsertSorted(front, x, le);
        SameElements(Insert(front, x, le), front + [x]);
        AppendSorted(Insert(front, x, le), last, le);
      }
    }
  }

  lemma {:induction false} SortSorts<T(!new)>(xs: seq<T>, le: (T, T) -> bool)
    requires TotalPreorder(le)
    ensures Sorted(StableSort(xs, le), le)
  {
    if xs != [] {
      SortSorts(xs[..|xs| - 1], le);
      InsertSorted(StableSort(xs[..|xs| - 1], le), xs[|xs| - 1], le);
    }
  }

  lemma FrontOfSorted<T>(xs: seq<T>, le: (T, T) -> bool)
    requires xs != [] && Sorted(xs, le)
    ensures var front, last := xs[..|xs| - 1], xs[|xs| - 1];
            Sorted(front, le) && (front != [] ==> le(front[|front| - 1], last)) && xs == front + [last]
  {
  }

  lemma {:induction false} InsertLast<T>(xs: seq<T>, x: T, le: (T, T) -> bool)
    requires xs != [] ==> le(xs[|xs| - 1], x)
    ensures Insert(xs, x, le) == xs + [x]
  {
  }

  /** Sorting leaves a sorted list as it is, ties included. */
  lemma {:induction false} SortOfSorted<T>(xs: seq<T>, le: (T, T) -> bool)
    requires Sorted(xs, le)
    ensures StableSort(xs, le) == xs
  {
    if xs != [] {
      var front, last := xs[..|xs| - 1], xs[|xs| - 1];
      FrontOfSorted(xs, le);
      SortOfSorted(front, le);
      InsertLast(front, last, le);
    }
  }

  /** No two different elements of xs are tied. */
  ghost predicate NoTies<T>(xs: seq<T>, le: (T, T) -> bool) {
    forall x, y :: x in xs && y in xs && le(x, y) && le(y, x) ==> x == y
  }

  lemma FirstIsLeast<T(!new)>(xs: seq<T>, x: T, le: (T, T) -> bool)
    requires TotalPreorder(le) && Sorted(xs, le)
    requires x in xs
    ensures le(xs[0], x)
  {
    var i :| 0 <= i < |xs| && xs[i] == x;
    assert le(xs[0], xs[0]);
  }

  lemma RestOfSorted<T>(xs: seq<T>, le: (T, T) -> bool)
    requires xs != [] && Sorted(xs, le)
    ensures Sorted(xs[1..], le)
    ensures multiset(xs[1..]) == multiset(xs) - multiset{xs[0]}
  {
    assert xs == [xs[0]] + xs[1..];
  }

  /** Without ties there is only one sorted arrangement. */
  lemma {:induction false} SortedIsUnique<T(!new)>(xs: seq<T>, ys: seq<T>, le: (T, T) -> bool)
    requires TotalPreorder(le)
    requires multiset(xs) == multiset(ys)
    requires Sorted(xs, le) && Sorted(ys, le)
    requires NoTies(xs, le)
    ensures xs == ys
  {
    if xs == [] {
      SameElements(xs, ys);
    } else {
      SameFirst(xs, ys, le);
      RestsMatch(xs, ys, le);
      SortedIsUnique(xs[1..], ys[1..], le);
      assert xs == [xs[0]] + xs[1..] && ys == [ys[0]] + ys[1..];
    }
  }

  lemma RestsMatch<T(!new)>(xs: seq<T>, ys: seq<T>, le: (T, T) -> bool)
    requires xs != [] && ys != [] && xs[0] == ys[0]
    requires multiset(xs) == multiset(ys)
    requires Sorted(xs, le) && Sorted(ys, le) && NoTies(xs, le)
    ensures multiset(xs[1..]) == multiset(ys[1..])
    ensures Sorted(xs[1..], le) && Sorted(ys[1..], le) && NoTies(xs[1..], le)
  {
    RestOfSorted(xs, le);
    RestOfSorted(ys, le);
    assert forall x :: x in xs[1..] ==> x in xs;
  }

  lemma SameFirst<T(!new)>(xs: seq<T>, ys: seq<T>, le: (T, T) -> bool)
    requires xs != [] && TotalPreorder(le)
    requires multiset(xs) == multiset(ys)
    requires Sorted(xs, le) && Sorted(ys, le)
    requires NoTies(xs, le)
    ensures ys != [] && xs[0] == ys[0]
  {
    SameElements(xs, ys);
    assert xs[0] in xs && ys[0] in ys;
    FirstIsLeast(xs, ys[0], le);
    FirstIsLeast(ys, xs[0], le);
  }

  /** The sorted form depends on the elements only, not on their arrangement. */
  lemma {:induction false} SortIgnoresArrangement<T(!new)>(xs: seq<T>, ys: seq<T>, le: (T, T) -> bool)
    requires TotalPreorder(le)
    requires multiset(xs) == multiset(ys)
    requires NoTies(xs, le)
    ensures StableSort(xs, le) == StableSort(ys, le)
  {
    SortSorts(xs, le);
    SortSorts(ys, le);
    var sx := StableSort(xs, le);
    SameElements(xs, sx);
    SortedIsUnique(sx, StableSort(ys, le), le);
  }

  predicate Distinct<T(==)>(xs: seq<T>) {
    forall i, j :: 0 <= i < j < |xs| ==> xs[i] != xs[j]
  }

  /** Two lists without repetition of the same elements are permutations of one another. */
  lemma {:induction false} DistinctSameSet<T>(xs: seq<T>, ys: seq<T>)
    requires Distinct(xs) && Distinct(ys)
    requires forall x :: x in xs <==> x in ys
    ensures multiset(xs) == multiset(ys)
  {
    forall x ensures multiset(xs)[x] == multiset(ys)[x] {
      CountInDistinct(xs, x);
      CountInDistinct(ys, x);
    }
  }

  lemma {:induction false} CountInDistinct<T>(xs: seq<T>, x: T)
    requires Distinct(xs)
    ensures multiset(xs)[x] == if x in xs then 1 else 0
  {
    if xs != [] {
      CountInDistinct(xs[1..], x);
      assert xs == [xs[0]] + xs[1..];
    }
  }

  lemma {:induction false} SubsetSize<T>(a: set<T>, b: set<T>)
    requires a <= b
    ensures |a| <= |b|
  {
    if a != {} {
      var x :| x in a;
      SubsetSize(a - {x}, b - {x});
    }
  }

  lemma TwiceInMultiset<T>(xs: seq<T>, i: nat, j: nat)
    requires i < j < |xs| && xs[i] == xs[j]
    ensures multiset(xs)[xs[i]] >= 2
  {
    assert xs == xs[..i] + [xs[i]] + xs[i + 1..j] + [xs[j]] + xs[j + 1..];
  }

  /** A permutation of a list without repetition has none. */
  lemma PermutationStaysDistinct<T>(xs: seq<T>, ys: seq<T>)
    requires multiset(xs) == multiset(ys) && Distinct(xs)
    ensures Distinct(ys)
  {
    forall i, j | 0 <= i < j < |ys| ensures ys[i] != ys[j] {
      CountInDistinct(xs, ys[i]);
      if ys[i] == ys[j] {
        TwiceInMultiset(ys, i, j);
        assert false;
      }
    }
  }

  // ------------------------------------------------------------ sets of numbers in order

  predicate Ascending(xs: seq<int>) {
    forall i, j :: 0 <= i < j < |xs| ==> xs[i] < xs[j]
  }

  predicate NoLessThan(numbers: set<int>, bound: int) {
    forall n :: n in numbers ==> bound <= n
  }

  lemma NonEmpty(numbers: set<int>)
    requires numbers != {}
    ensures exists n :: n in numbers
  {
    if forall n :: n !in numbers {
      assert false;
    }
  }

  lemma {:induction false} LeastExists(numbers: set<int>)
    requires numbers != {}
    ensures exists l :: l in numbers && NoLessThan(numbers, l)
  {
    NonEmpty(numbers);
    var x :| x in numbers;
    var rest := numbers - {x};
    var least := x;
    if rest != {} {
      LeastExists(rest);
      var l :| l in rest && NoLessThan(rest, l);
      least := if l < x then l else x;
    }
    forall n | n in numbers ensures least <= n {
      assert n == x || n in rest;
    }
    assert NoLessThan(numbers, least);
  }

  /** The elements of a set, ascending. */
  ghost function Ordered(numbers: set<int>): seq<int> {
    if numbers == {} then []
    else
      LeastExists(numbers);
      var least :| least in numbers && NoLessThan(numbers, least);
      [least] + Ordered(numbers - {least})
  }

  lemma {:induction false} OrderedAscends(numbers: set<int>)
    ensures Ascending(Ordered(numbers))
    ensures forall n :: n in Ordered(numbers) <==> n in numbers
  {
    if numbers != {} {
      LeastExists(numbers);
      var least :| least in numbers && NoLessThan(numbers, least);
      FirstOfOrdered(numbers, least);
      OrderedAscends(numbers - {least});
      PrependAscends(least, Ordered(numbers - {least}), numbers);
    }
  }

  lemma PrependAscends(least: int, rest: seq<int>, numbers: set<int>)
    requires Ascending(rest) && forall n :: n in rest <==> n in numbers - {least}
    requires least in numbers && NoLessThan(numbers, least)
    ensures Ascending([least] + rest)
    ensures forall n :: n in [least] + rest <==> n in numbers
  {
    forall i | 0 <= i < |rest| ensures least < rest[i] {
      assert rest[i] in rest;
    }
    forall n ensures n in [least] + rest <==> n in numbers {
      assert n in [least] + rest <==> n == least || n in rest;
    }
  }

  lemma {:induction false} FirstOfOrdered(numbers: set<int>, least: int)
    requires least in numbers && NoLessThan(numbers, least)
    ensures Ordered(numbers) == [least] + Ordered(numbers - {least})
  {
  }

  /** `sorted` of a set of numbers. */
  method SortedSet(numbers: set<int>) returns (sorted: seq<int>)
    ensures sorted == Ordered(numbers)
  {
    sorted := [];
    var rest := numbers;
    while rest != {}
      invariant rest <= numbers
      invariant sorted + Ordered(rest) == Ordered(numbers)
      decreases rest
    {
      var least := Least(rest);
      FirstOfOrdered(rest, least);
      assert sorted + ([least] + Ordered(rest - {least})) == (sorted + [least]) + Ordered(rest - {least});
      sorted := sorted + [least];
      rest := rest - {least};
    }
  }

  method Least(numbers: set<int>) returns (least: int)
    requires numbers != {}
    ensures least in numbers && NoLessThan(numbers, least)
  {
    NonEmpty(numbers);
    least :| least in numbers;
    var rest := numbers - {least};
    while rest != {}
      invariant rest <= numbers && least in numbers
      invariant forall n :: n in numbers && n !in rest ==> least <= n
      decreases rest
    {
      NonEmpty(rest);
      var n :| n in rest;
      rest := rest - {n};
      if n < least {
        least := n;
      }
    }
  }
}
