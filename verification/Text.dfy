/** Python's string operations the scripts rely on: split, join, replace and code-point order. */
module Text {
  import opened Ordering

  // ----- splitting on one separator -----

  function Split<T(==)>(s: seq<T>, sep: T): (parts: seq<seq<T>>)
    ensures parts != []
  {
    if s == [] then [[]]
    else
      var rest := Split(s[1..], sep);
      if s[0] == sep then [[]] + rest else [[s[0]] + rest[0]] + rest[1..]
  }

  function Join<T>(parts: seq<seq<T>>, sep: T): seq<T>
    requires parts != []
  {
    if |parts| == 1 then parts[0] else parts[0] + [sep] + Join(parts[1..], sep)
  }

  ghost predicate Free<T>(parts: seq<seq<T>>, sep: T) {
    forall i :: 0 <= i < |parts| ==> sep !in parts[i]
  }

  lemma {:induction false} SplitFree<T>(s: seq<T>, sep: T)
    ensures Free(Split(s, sep), sep)
  {
    if s != [] {
      SplitFree(s[1..], sep);
    }
  }

  lemma {:induction false} JoinSplit<T>(s: seq<T>, sep: T)
    ensures Join(Split(s, sep), sep) == s
  {
    if s != [] {
      JoinSplit(s[1..], sep);
      var rest := Split(s[1..], sep);
      assert Split(s, sep)[1..] == if s[0] == sep then rest else rest[1..];
      if s[0] != sep && |rest| > 1 {
        assert [s[0]] + (rest[0] + [sep] + Join(rest[1..], sep)) == ([s[0]] + rest[0]) + [sep] + Join(rest[1..], sep);
      }
    }
  }

  lemma {:induction false} SplitSkip<T>(head: seq<T>, tail: seq<T>, sep: T)
    requires sep !in head
    ensures Split(head + [sep] + tail, sep) == [head] + Split(tail, sep)
    decreases head
  {
    var s := head + [sep] + tail;
    if head == [] {
      assert s[1..] == tail;
    } else {
      assert s[1..] == head[1..] + [sep] + tail;
      SplitSkip(head[1..], tail, sep);
      assert Split(s[1..], sep)[1..] == Split(tail, sep) && [s[0]] + head[1..] == head;
    }
  }

  lemma {:induction false} SplitWhole<T>(s: seq<T>, sep: T)
    requires sep !in s
    ensures Split(s, sep) == [s]
  {
    if s != [] {
      SplitWhole(s[1..], sep);
      assert [s[0]] + s[1..] == s;
    }
  }

  lemma {:induction false} SplitJoin<T>(parts: seq<seq<T>>, sep: T)
    requires parts != [] && Free(parts, sep)
    ensures Split(Join(parts, sep), sep) == parts
  {
    if |parts| == 1 {
      SplitWhole(parts[0], sep);
    } else {
      SplitSkip(parts[0], Join(parts[1..], sep), sep);
      SplitJoin(parts[1..], sep);
    }
  }

  // A stretch between two separators, or an end of the text.
  ghost predicate Between<T>(s: seq<T>, sep: T, i: int, j: int) {
    && 0 <= i <= j <= |s| && (forall k :: i <= k < j ==> s[k] != sep)
    && (i > 0 ==> s[i - 1] == sep) && (j < |s| ==> s[j] == sep)
  }

  lemma {:induction false} FirstSeparator<T>(s: seq<T>, sep: T) returns (f: nat)
    requires sep in s
    ensures f < |s| && s[f] == sep && forall k :: 0 <= k < f ==> s[k] != sep
  {
    if s[0] == sep {
      f := 0;
    } else {
      var g := FirstSeparator(s[1..], sep);
      f := g + 1;
      assert forall k :: 1 <= k < f ==> s[k] == s[1..][k - 1];
    }
  }

  lemma {:induction false} BetweenBehind<T>(s: seq<T>, sep: T, f: nat, i: int, j: int)
    requires f < |s| && s[f] == sep && (forall k :: 0 <= k < f ==> s[k] != sep)
    ensures Between(s, sep, i, j) && i == 0 ==> j == f
    ensures Between(s, sep, i, j) && i > 0 ==>
              i > f && Between(s[f + 1..], sep, i - f - 1, j - f - 1) && s[i..j] == s[f + 1..][i - f - 1..j - f - 1]
    ensures Between(s[f + 1..], sep, i, j) ==>
              Between(s, sep, i + f + 1, j + f + 1) && s[i + f + 1..j + f + 1] == s[f + 1..][i..j]
  {
    var tail := s[f + 1..];
    assert forall k :: 0 <= k < |tail| ==> tail[k] == s[k + f + 1];
    if Between(s, sep, i, j) && i > 0 {
      assert i > f;
      assert forall k :: f < k < |s| ==> s[k] == tail[k - f - 1];
    }
  }

  // The parts of a split are exactly the stretches between separators.
  lemma {:induction false} SplitBetween<T>(s: seq<T>, sep: T, part: seq<T>)
    ensures part in Split(s, sep) <==> exists i, j :: Between(s, sep, i, j) && s[i..j] == part
    decreases |s|
  {
    if sep in s {
      var f := FirstSeparator(s, sep);
      var head, tail := s[..f], s[f + 1..];
      assert s == head + [sep] + tail;
      SplitSkip(head, tail, sep);
      SplitBetween(tail, sep, part);
      assert Between(s, sep, 0, f) && s[0..f] == head;
      hide Split, Between;
      if i, j :| Between(tail, sep, i, j) && tail[i..j] == part { BetweenBehind(s, sep, f, i, j); }
      if i, j :| Between(s, sep, i, j) && s[i..j] == part {
        BetweenBehind(s, sep, f, i, j);
        BetweenInside(s, sep, i, j);
      }
    } else {
      SplitWhole(s, sep);
      assert Between(s, sep, 0, |s|) && s[0..|s|] == s;
      if i, j :| Between(s, sep, i, j) && s[i..j] == part { assert i == 0 && j == |s|; }
    }
  }

  lemma {:induction false} BetweenInside<T>(s: seq<T>, sep: T, i: int, j: int)
    requires Between(s, sep, i, j)
    ensures 0 <= i <= j <= |s|
  {
  }

  function Last<T>(xs: seq<T>): T
    requires xs != []
  {
    xs[|xs| - 1]
  }

  function Front<T>(xs: seq<T>): seq<T>
    requires xs != []
  {
    xs[..|xs| - 1]
  }

  // Appending to the text only touches its last piece.
  lemma {:induction false} SplitAppend<T>(s: seq<T>, t: seq<T>, sep: T)
    ensures Split(s + t, sep) == Front(Split(s, sep)) + Split(Last(Split(s, sep)) + t, sep)
  {
    if s == [] {
      assert s + t == t && Last(Split(s, sep)) + t == t;
    } else {
      SplitAppend(s[1..], t, sep);
      var rest := Split(s[1..], sep);
      var more := Split(Last(rest) + t, sep);
      assert (s + t)[1..] == s[1..] + t && (s + t)[0] == s[0];
      if s[0] == sep {
        assert Front([[]] + rest) + more == [[]] + (Front(rest) + more);
      } else {
        SplitAppendToFirst(s[0], rest, t, sep);
      }
    }
  }

  lemma {:induction false} SplitAppendToFirst<T>(x: T, rest: seq<seq<T>>, t: seq<T>, sep: T)
    requires rest != [] && x != sep
    ensures var all := Front(rest) + Split(Last(rest) + t, sep);
            var parts := [[x] + rest[0]] + rest[1..];
            [[x] + all[0]] + all[1..] == Front(parts) + Split(Last(parts) + t, sep)
  {
    var more := Split(Last(rest) + t, sep);
    var all := Front(rest) + more;
    var parts := [[x] + rest[0]] + rest[1..];
    if |rest| == 1 {
      assert all == more && Last(parts) == [x] + rest[0];
      var grown := [x] + rest[0] + t;
      assert grown == [x] + (rest[0] + t) && grown[1..] == rest[0] + t;
      assert Split(grown, sep) == [[x] + more[0]] + more[1..];
    } else {
      assert Last(parts) == Last(rest) && all[0] == rest[0];
      assert all[1..] == rest[1..|rest| - 1] + more;
      assert Front(parts) == [[x] + rest[0]] + rest[1..|rest| - 1];
    }
  }

  // ----- replace -----

  ghost predicate Occurs(s: string, word: string) {
    exists i :: 0 <= i <= |s| && word <= s[i..]
  }

  // str.replace: leftmost, non-overlapping occurrences.
  function Replace(s: string, word: string, with: string): string
    requires word != []
    decreases |s|
  {
    if s == [] then []
    else if word <= s then with + Replace(s[|word|..], word, with)
    else [s[0]] + Replace(s[1..], word, with)
  }

  // ----- code-point order -----

  predicate Before(a: string, b: string) {
    b != [] && (a == [] || a[0] < b[0] || (a[0] == b[0] && Before(a[1..], b[1..])))
  }

  lemma {:induction false} BeforeIrreflexive(a: string)
    ensures !Before(a, a)
  {
    if a != [] { BeforeIrreflexive(a[1..]); }
  }

  lemma {:induction false} BeforeTransitive(a: string, b: string, c: string)
    requires Before(a, b) && Before(b, c)
    ensures Before(a, c)
  {
    if a != [] && a[0] == b[0] && b[0] == c[0] { BeforeTransitive(a[1..], b[1..], c[1..]); }
  }

  lemma {:induction false} BeforeTotal(a: string, b: string)
    ensures a == b || Before(a, b) || Before(b, a)
  {
    if a != [] && b != [] && a[0] == b[0] {
      BeforeTotal(a[1..], b[1..]);
      assert a == [a[0]] + a[1..] && b == [b[0]] + b[1..];
    }
  }

  lemma {:induction false} BeforeStrictTotal()
    ensures StrictTotal(Before)
  {
    forall x ensures !Before(x, x) { BeforeIrreflexive(x); }
    forall x, y, z | Before(x, y) && Before(y, z) ensures Before(x, z) { BeforeTransitive(x, y, z); }
    forall x, y ensures x == y || Before(x, y) || Before(y, x) { BeforeTotal(x, y); }
  }

  // sorted(names)
  function InOrder(names: set<string>): (list: seq<string>)
    ensures Elements(list) == names && Increasing(Before, list)
    ensures forall name :: name in list <==> name in names
  {
    BeforeStrictTotal();
    SortSet(Before, names)
  }

  lemma {:induction false} PrefixBefore(a: string, rest: string)
    requires rest != []
    ensures Before(a, a + rest)
  {
    if a != [] {
      assert (a + rest)[1..] == a[1..] + rest;
      PrefixBefore(a[1..], rest);
    }
  }

  // The code points decide at the first difference, and a proper prefix comes first.
  ghost predicate Precedes(a: string, b: string) {
    exists i :: DiffersAt(a, b, i)
  }

  ghost predicate DiffersAt(a: string, b: string, i: int) {
    0 <= i <= |a| && i < |b| && a[..i] == b[..i] && (i == |a| || a[i] < b[i])
  }

  lemma {:induction false} BeforeExact(a: string, b: string)
    ensures Before(a, b) <==> Precedes(a, b)
  {
    if a == [] {
      assert b != [] ==> DiffersAt(a, b, 0);
    } else if b != [] {
      BeforeExact(a[1..], b[1..]);
      if a[0] < b[0] { assert DiffersAt(a, b, 0); }
      if a[0] == b[0] && Before(a[1..], b[1..]) {
        var i :| DiffersAt(a[1..], b[1..], i);
        assert a[..i + 1] == [a[0]] + a[1..][..i] && b[..i + 1] == [b[0]] + b[1..][..i];
        assert DiffersAt(a, b, i + 1);
      }
      if Precedes(a, b) {
        var i :| DiffersAt(a, b, i);
        if i > 0 {
          assert a[0] == a[..i][0] == b[..i][0] == b[0];
          assert a[1..][..i - 1] == a[..i][1..] && b[1..][..i - 1] == b[..i][1..];
          assert DiffersAt(a[1..], b[1..], i - 1);
        }
      }
    }
  }

  // Tuples of strings compare position by position.
  predicate ListBefore(a: seq<string>, b: seq<string>) {
    b != [] && (a == [] || Before(a[0], b[0]) || (a[0] == b[0] && ListBefore(a[1..], b[1..])))
  }

  lemma {:induction false} ListBeforeIrreflexive(a: seq<string>)
    ensures !ListBefore(a, a)
  {
    if a != [] {
      BeforeIrreflexive(a[0]);
      ListBeforeIrreflexive(a[1..]);
    }
  }

  lemma {:induction false} ListBeforeTransitive(a: seq<string>, b: seq<string>, c: seq<string>)
    requires ListBefore(a, b) && ListBefore(b, c)
    ensures ListBefore(a, c)
  {
    if a != [] {
      if a[0] == b[0] && b[0] == c[0] {
        BeforeIrreflexive(a[0]);
        ListBeforeTransitive(a[1..], b[1..], c[1..]);
      } else if Before(a[0], b[0]) && Before(b[0], c[0]) {
        BeforeTransitive(a[0], b[0], c[0]);
      }
    }
  }

  lemma {:induction false} ListBeforeTotal(a: seq<string>, b: seq<string>)
    ensures a == b || ListBefore(a, b) || ListBefore(b, a)
  {
    if a != [] && b != [] {
      BeforeTotal(a[0], b[0]);
      if a[0] == b[0] {
        ListBeforeTotal(a[1..], b[1..]);
        assert a == [a[0]] + a[1..] && b == [b[0]] + b[1..];
      }
    }
  }

  lemma {:induction false} ListBeforeStrictTotal()
    ensures StrictTotal(ListBefore)
  {
    forall x ensures !ListBefore(x, x) { ListBeforeIrreflexive(x); }
    forall x, y, z | ListBefore(x, y) && ListBefore(y, z) ensures ListBefore(x, z) { ListBeforeTransitive(x, y, z); }
    forall x, y ensures x == y || ListBefore(x, y) || ListBefore(y, x) { ListBeforeTotal(x, y); }
  }

  // A tuple comes before another at the first place where they differ.
  lemma {:induction false} ListBeforeFirst(a: seq<string>, b: seq<string>, i: nat)
    requires i < |a| && i < |b| && a[..i] == b[..i] && a[i] != b[i]
    ensures ListBefore(a, b) <==> Before(a[i], b[i])
  {
    if i == 0 {
      hide Before;
    } else {
      assert a[0] == a[..i][0] == b[..i][0] == b[0];
      assert a[1..][..i - 1] == a[..i][1..] && b[1..][..i - 1] == b[..i][1..];
      BeforeIrreflexive(a[0]);
      ListBeforeFirst(a[1..], b[1..], i - 1);
    }
  }

  // ----- what a replacement does -----

  lemma {:induction false} ReplaceNothing(s: string, word: string, with: string)
    requires word != [] && !Occurs(s, word)
    ensures Replace(s, word, with) == s
  {
    if s != [] {
      assert s[0..] == s;
      forall i | 0 <= i < |s| ensures !(word <= s[1..][i..]) {
        assert s[1..][i..] == s[i + 1..];
      }
      ReplaceNothing(s[1..], word, with);
    }
  }

  // The first occurrence is replaced, and then the text behind it.
  lemma {:induction false} ReplaceFirst(head: string, word: string, tail: string, with: string)
    requires word != [] && forall i :: 0 <= i < |head| ==> !(word <= (head + word + tail)[i..])
    ensures Replace(head + word + tail, word, with) == head + with + Replace(tail, word, with)
    decreases |head|
  {
    var s := head + word + tail;
    if head == [] {
      assert s == word + tail && s[|word|..] == tail;
    } else {
      assert s[0..] == s && !(word <= s[0..]);
      assert s[1..] == head[1..] + word + tail;
      forall i | 0 <= i < |head| - 1 ensures !(word <= s[1..][i..]) {
        assert s[1..][i..] == s[i + 1..];
      }
      ReplaceFirst(head[1..], word, tail, with);
      assert Replace(s, word, with) == [s[0]] + Replace(s[1..], word, with);
      hide Replace;
      PutBack(head, with, Replace(tail, word, with));
    }
  }

  lemma {:induction false} PutBack(head: string, with: string, tail: string)
    requires head != ""
    ensures [head[0]] + (head[1..] + with + tail) == head + with + tail
  {
    assert head == [head[0]] + head[1..];
  }
}
