/** Sorting as Python's `sorted` does it: stable, driven by a strict order on the elements. */
module Ordering {

  ghost predicate StrictOrder<T(!new)>(less: (T, T) -> bool) {
    && (forall x :: !less(x, x))
    && (forall x, y, z :: less(x, y) && less(y, z) ==> less(x, z))
  }

  ghost predicate StrictTotal<T(!new)>(less: (T, T) -> bool) {
    && StrictOrder(less)
    && forall x, y :: x == y || less(x, y) || less(y, x)
  }

  ghost predicate Increasing<T>(less: (T, T) -> bool, xs: seq<T>) {
    forall i, j :: 0 <= i < j < |xs| ==> less(xs[i], xs[j])
  }

  // No two positions hold elements the order cannot tell apart.
  ghost predicate Comparable<T>(less: (T, T) -> bool, xs: seq<T>) {
    forall i, j :: 0 <= i < j < |xs| ==> less(xs[i], xs[j]) || less(xs[j], xs[i])
  }

  ghost predicate NoRepeats<T>(xs: seq<T>) {
    forall i, j :: 0 <= i < j < |xs| ==> xs[i] != xs[j]
  }

  function Elements<T>(xs: seq<T>): set<T> {
    set x | x in xs
  }

  lemma {:induction false} ElementsPush<T>(xs: seq<T>, i: nat)
    requires i < |xs|
    ensures Elements(xs[..i + 1]) == Elements(xs[..i]) + {xs[i]} && Elements(xs[..i + 1]) <= Elements(xs)
  {
    assert xs[..i + 1] == xs[..i] + [xs[i]];
  }

  // len(xs) == len(set(xs)) says exactly that nothing repeats.
  lemma {:induction false} RepeatsShrink<T>(xs: seq<T>)
    ensures |Elements(xs)| <= |xs|
    ensures |Elements(xs)| == |xs| <==> NoRepeats(xs)
    decreases |xs|
  {
    if xs == [] {
      assert Elements(xs) == {};
    } else {
      var n := |xs| - 1;
      RepeatsShrink(xs[..n]);
      ElementsPush(xs, n);
      assert xs[..n + 1] == xs;
      if NoRepeats(xs[..n]) && xs[n] !in xs[..n] {
        forall i, j | 0 <= i < j < |xs| ensures xs[i] != xs[j] {
          if j < n { assert xs[..n][i] != xs[..n][j]; } else { assert xs[..n][i] in xs[..n]; }
        }
      }
      if NoRepeats(xs) {
        forall i, j | 0 <= i < j < n ensures xs[..n][i] != xs[..n][j] { assert xs[i] != xs[j]; }
      }
    }
  }

  function Insert<T>(less: (T, T) -> bool, x: T, xs: seq<T>): seq<T> {
    if xs == [] then [x]
    else if less(xs[0], x) then [xs[0]] + Insert(less, x, xs[1..])
    else [x] + xs
  }

  function Sort<T>(less: (T, T) -> bool, xs: seq<T>): seq<T> {
    if xs == [] then [] else Insert(less, xs[0], Sort(less, xs[1..]))
  }

  lemma {:induction false} InsertPermutes<T>(less: (T, T) -> bool, x: T, xs: seq<T>)
    ensures multiset(Insert(less, x, xs)) == multiset(xs) + multiset{x}
  {
    if xs != [] {
      assert xs == [xs[0]] + xs[1..];
      if less(xs[0], x) {
        InsertPermutes(less, x, xs[1..]);
      }
    }
  }

  lemma {:induction false} SortPermutes<T>(less: (T, T) -> bool, xs: seq<T>)
    ensures multiset(Sort(less, xs)) == multiset(xs)
  {
    if xs != [] {
      assert xs == [xs[0]] + xs[1..];
      SortPermutes(less, xs[1..]);
      InsertPermutes(less, xs[0], Sort(less, xs[1..]));
    }
  }

  lemma {:induction false} SortKeeps<T>(less: (T, T) -> bool, xs: seq<T>)
    ensures |Sort(less, xs)| == |xs|
    ensures forall x :: x in Sort(less, xs) <==> x in xs
  {
    SortPermutes(less, xs);
    SamePermutation(Sort(less, xs), xs);
  }

  lemma {:induction false} SamePermutation<T>(xs: seq<T>, ys: seq<T>)
    requires multiset(xs) == multiset(ys)
    ensures |xs| == |ys|
    ensures forall x :: x in xs <==> x in ys
  {
    assert |multiset(xs)| == |xs| && |multiset(ys)| == |ys|;
    forall x ensures x in xs <==> x in ys {
      assert x in xs <==> x in multiset(xs);
      assert x in ys <==> x in multiset(ys);
    }
  }

  lemma {:induction false} InsertIncreasing<T(!new)>(less: (T, T) -> bool, x: T, xs: seq<T>)
    requires StrictOrder(less) && Increasing(less, xs)
    requires forall y :: y in xs ==> less(x, y) || less(y, x)
    ensures Increasing(less, Insert(less, x, xs))
  {
    if xs != [] && less(xs[0], x) {
      var rest := Insert(less, x, xs[1..]);
      InsertIncreasing(less, x, xs[1..]);
      InsertPermutes(less, x, xs[1..]);
      forall y | y in rest ensures less(xs[0], y) {
        assert y in multiset(rest);
        assert y == x || y in xs[1..];
      }
    }
  }

  lemma {:induction false} SortIncreasing<T(!new)>(less: (T, T) -> bool, xs: seq<T>)
    requires StrictOrder(less) && Comparable(less, xs)
    ensures Increasing(less, Sort(less, xs))
  {
    if xs != [] {
      SortIncreasing(less, xs[1..]);
      SortKeeps(less, xs[1..]);
      forall y | y in xs[1..] ensures less(xs[0], y) || less(y, xs[0]) {
        var j :| 1 <= j < |xs| && xs[j] == y;
      }
      InsertIncreasing(less, xs[0], Sort(less, xs[1..]));
    }
  }

  // A strictly increasing list is determined by its elements.
  lemma {:induction false} IncreasingUnique<T(!new)>(less: (T, T) -> bool, xs: seq<T>, ys: seq<T>)
    requires StrictOrder(less) && Increasing(less, xs) && Increasing(less, ys)
    requires forall x :: x in xs <==> x in ys
    ensures xs == ys
  {
    assert (xs != [] ==> xs[0] in ys) && (ys != [] ==> ys[0] in xs);
    if xs != [] && ys != [] {
      assert xs[0] in ys && ys[0] in xs;
      assert xs[0] == ys[0];
      forall x ensures x in xs[1..] <==> x in ys[1..] {
        if x in xs[1..] { assert x in ys; assert x != xs[0]; }
        if x in ys[1..] { assert x in xs; assert x != ys[0]; }
      }
      IncreasingUnique(less, xs[1..], ys[1..]);
      assert xs == [xs[0]] + xs[1..] && ys == [ys[0]] + ys[1..];
    }
  }

  lemma {:induction false} ComparablePermutes<T(!new)>(less: (T, T) -> bool, xs: seq<T>, ys: seq<T>)
    requires StrictOrder(less) && Comparable(less, xs) && multiset(xs) == multiset(ys)
    ensures Comparable(less, ys)
  {
    SamePermutation(xs, ys);
    forall i, j | 0 <= i < j < |ys| ensures less(ys[i], ys[j]) || less(ys[j], ys[i]) {
      var a, b := ys[i], ys[j];
      assert a in xs && b in xs;
      var p :| 0 <= p < |xs| && xs[p] == a;
      var q :| 0 <= q < |xs| && xs[q] == b;
      if p == q {
        RepeatsCount(ys, i, j);
        var r := SecondOccurrence(xs, p);
        assert false;
      }
    }
  }

  lemma {:induction false} RepeatsCount<T>(xs: seq<T>, i: int, j: int)
    requires 0 <= i < j < |xs| && xs[i] == xs[j]
    ensures multiset(xs)[xs[i]] >= 2
  {
    assert xs == xs[..i] + [xs[i]] + xs[i + 1..j] + [xs[j]] + xs[j + 1..];
  }

  lemma {:induction false} SecondOccurrence<T>(xs: seq<T>, p: int) returns (r: int)
    requires 0 <= p < |xs| && multiset(xs)[xs[p]] >= 2
    ensures 0 <= r < |xs| && r != p && xs[r] == xs[p]
  {
    assert xs == xs[..p] + [xs[p]] + xs[p + 1..];
    var rest := xs[..p] + xs[p + 1..];
    assert multiset(xs) == multiset(rest) + multiset{xs[p]};
    assert xs[p] in multiset(rest);
    assert xs[p] in rest;
    var k :| 0 <= k < |rest| && rest[k] == xs[p];
    r := if k < p then k else k + 1;
  }

  // Sorting forgets the order its input came in, provided no two elements tie.
  lemma {:induction false} SortCanonical<T(!new)>(less: (T, T) -> bool, xs: seq<T>, ys: seq<T>)
    requires StrictOrder(less) && Comparable(less, xs) && multiset(xs) == multiset(ys)
    ensures Sort(less, xs) == Sort(less, ys)
  {
    ComparablePermutes(less, xs, ys);
    SamePermutation(xs, ys);
    SortIncreasing(less, xs);
    SortIncreasing(less, ys);
    SortKeeps(less, xs);
    SortKeeps(less, ys);
    IncreasingUnique(less, Sort(less, xs), Sort(less, ys));
  }

  lemma {:induction false} HasLeast<T(!new)>(less: (T, T) -> bool, s: set<T>)
    requires StrictTotal(less) && s != {}
    ensures exists m :: m in s && forall y :: y in s ==> y == m || less(m, y)
  {
    var m :| m in s;
    var rest := s - {m};
    if rest == {} {
      assert s == {m};
    } else {
      HasLeast(less, rest);
      var n :| n in rest && forall y :: y in rest ==> y == n || less(n, y);
      var l := if less(n, m) then n else m;
      assert l in s && forall y :: y in s ==> y == l || less(l, y);
    }
  }

  // sorted(s) for a set: each element once, ascending.
  function SortSet<T(!new)>(less: (T, T) -> bool, s: set<T>): (xs: seq<T>)
    requires StrictTotal(less)
    ensures Increasing(less, xs)
    ensures forall x :: x in xs <==> x in s
    ensures |xs| == |s|
  {
    if s == {} then []
    else
      HasLeast(less, s);
      var m :| m in s && forall y :: y in s ==> y == m || less(m, y);
      [m] + SortSet(less, s - {m})
  }

  lemma {:induction false} TakenOut<T>(xs: seq<T>, k: nat)
    requires k < |xs|
    ensures multiset(xs[..k] + xs[k + 1..]) == multiset(xs) - multiset{xs[k]}
  {
    assert xs == xs[..k] + ([xs[k]] + xs[k + 1..]);
  }

  // The last element of one list, found in a rearrangement of it.
  lemma {:induction false} FindLast<T>(xs: seq<T>, ys: seq<T>) returns (k: nat)
    requires xs != [] && multiset(xs) == multiset(ys)
    ensures k < |ys| && ys[k] == xs[|xs| - 1]
    ensures multiset(xs[..|xs| - 1]) == multiset(ys[..k] + ys[k + 1..])
  {
    SamePermutation(xs, ys);
    assert xs[|xs| - 1] in xs && xs[|xs| - 1] in ys;
    k :| 0 <= k < |ys| && ys[k] == xs[|xs| - 1];
    TakenOut(ys, k);
    assert xs == xs[..|xs| - 1] + [xs[|xs| - 1]];
  }

  // ----- lists with repeats -----

  ghost predicate Ascending<T>(less: (T, T) -> bool, xs: seq<T>) {
    forall i, j :: 0 <= i < j < |xs| ==> !less(xs[j], xs[i])
  }

  // Elements the order cannot tell apart stand on the same side of every other.
  ghost predicate StrictWeak<T(!new)>(less: (T, T) -> bool) {
    && (forall x, y :: less(x, y) ==> !less(y, x))
    && forall x, y, z :: less(x, y) ==> less(x, z) || less(z, y)
  }

  lemma {:induction false} TotalWeak<T(!new)>(less: (T, T) -> bool)
    requires StrictTotal(less)
    ensures StrictWeak(less)
  {
    forall x, y | less(x, y) ensures !less(y, x) && forall z :: less(x, z) || less(z, y) {
      forall z ensures less(x, z) || less(z, y) { assert x == z || less(x, z) || less(z, x); }
    }
  }

  lemma {:induction false} InsertAscending<T(!new)>(less: (T, T) -> bool, x: T, xs: seq<T>)
    requires StrictWeak(less) && Ascending(less, xs)
    ensures Ascending(less, Insert(less, x, xs))
  {
    if xs != [] && less(xs[0], x) {
      var rest := Insert(less, x, xs[1..]);
      InsertAscending(less, x, xs[1..]);
      InsertPermutes(less, x, xs[1..]);
      forall y | y in rest ensures !less(y, xs[0]) {
        assert y in multiset(rest);
        assert y == x || y in xs[1..];
      }
    } else if xs != [] {
      forall y | y in xs ensures !less(y, x) {
        assert !less(y, xs[0]) && !less(xs[0], x);
      }
    }
  }

  lemma {:induction false} SortWeakly<T(!new)>(less: (T, T) -> bool, xs: seq<T>)
    requires StrictWeak(less)
    ensures Ascending(less, Sort(less, xs))
  {
    if xs != [] {
      SortWeakly(less, xs[1..]);
      InsertAscending(less, xs[0], Sort(less, xs[1..]));
    }
  }

  lemma {:induction false} SortAscending<T(!new)>(less: (T, T) -> bool, xs: seq<T>)
    requires StrictTotal(less)
    ensures Ascending(less, Sort(less, xs))
  {
    TotalWeak(less);
    SortWeakly(less, xs);
  }

  lemma {:induction false} AscendingUnique<T(!new)>(less: (T, T) -> bool, xs: seq<T>, ys: seq<T>)
    requires StrictTotal(less) && Ascending(less, xs) && Ascending(less, ys) && multiset(xs) == multiset(ys)
    ensures xs == ys
  {
    SamePermutation(xs, ys);
    if xs != [] {
      SameHead(less, xs, ys);
      TailAscends(less, xs);
      TailAscends(less, ys);
      hide *;
      AscendingUnique(less, xs[1..], ys[1..]);
    }
  }

  lemma {:induction false} TailAscends<T(!new)>(less: (T, T) -> bool, xs: seq<T>)
    requires Ascending(less, xs) && xs != []
    ensures Ascending(less, xs[1..]) && multiset(xs[1..]) == multiset(xs) - multiset{xs[0]} && xs == [xs[0]] + xs[1..]
  {
    assert xs == [xs[0]] + xs[1..];
  }

  lemma {:induction false} SameHead<T(!new)>(less: (T, T) -> bool, xs: seq<T>, ys: seq<T>)
    requires StrictTotal(less) && Ascending(less, xs) && Ascending(less, ys) && multiset(xs) == multiset(ys) && xs != []
    ensures |xs| == |ys| && xs[0] == ys[0]
  {
    SamePermutation(xs, ys);
    assert xs[0] in ys && ys[0] in xs;
    var i :| 0 <= i < |ys| && ys[i] == xs[0];
    var j :| 0 <= j < |xs| && xs[j] == ys[0];
  }

  // Sorting by a total order forgets the order of the input, repeats or not.
  lemma {:induction false} SortForgets<T(!new)>(less: (T, T) -> bool, xs: seq<T>, ys: seq<T>)
    requires StrictTotal(less) && multiset(xs) == multiset(ys)
    ensures Sort(less, xs) == Sort(less, ys)
  {
    SortPermutes(less, xs);
    SortPermutes(less, ys);
    SortAscending(less, xs);
    SortAscending(less, ys);
    AscendingUnique(less, Sort(less, xs), Sort(less, ys));
  }
}
