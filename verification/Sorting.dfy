/** Python's stable `sorted` under an ordering given as a total preorder. */
module Sorting {
  ghost predicate TotalPreorder<T(!new)>(le: (T, T) -> bool) {
    && (forall x, y :: le(x, y) || le(y, x))
    && (forall x, y, z :: le(x, y) && le(y, z) ==> le(x, z))
  }

  ghost predicate Sorted<T>(le: (T, T) -> bool, s: seq<T>) {
    forall i, j :: 0 <= i < j < |s| ==> le(s[i], s[j])
  }

  /** Puts `x` before the first element it does not exceed. */
  function Insert<T>(le: (T, T) -> bool, x: T, s: seq<T>): (r: seq<T>)
    ensures |r| == |s| + 1
  {
    if s == [] || le(x, s[0]) then [x] + s else [s[0]] + Insert(le, x, s[1..])
  }

  function Sort<T>(le: (T, T) -> bool, s: seq<T>): (r: seq<T>)
    ensures |r| == |s|
  {
    if s == [] then [] else Insert(le, s[0], Sort(le, s[1..]))
  }

  lemma TailSorted<T>(le: (T, T) -> bool, s: seq<T>)
    requires Sorted(le, s) && s != []
    ensures Sorted(le, s[1..]) && forall y :: y in s[1..] ==> le(s[0], y)
  {
  }

  lemma ConsSorted<T>(le: (T, T) -> bool, x: T, s: seq<T>)
    requires Sorted(le, s) && forall y :: y in s ==> le(x, y)
    ensures Sorted(le, [x] + s)
  {
  }

  lemma {:induction false} InsertsInFront<T(!new)>(le: (T, T) -> bool, x: T, s: seq<T>)
    requires TotalPreorder(le) && Sorted(le, s) && (s == [] || le(x, s[0]))
    ensures Sorted(le, Insert(le, x, s)) && multiset(Insert(le, x, s)) == multiset(s) + multiset{x}
  {
    if s != [] {
      HeadLeast(le, s);
      forall y | y in s ensures le(x, y) {
      }
    }
    ConsSorted(le, x, s);
  }

  lemma {:induction false} InsertSorts<T(!new)>(le: (T, T) -> bool, x: T, s: seq<T>)
    requires TotalPreorder(le) && Sorted(le, s)
    ensures Sorted(le, Insert(le, x, s))
    ensures multiset(Insert(le, x, s)) == multiset(s) + multiset{x}
    decreases |s|
  {
    if s != [] && !le(x, s[0]) {
      var rest := Insert(le, x, s[1..]);
      assert s == [s[0]] + s[1..];
      TailSorted(le, s);
      hide Sorted;
      InsertSorts(le, x, s[1..]);
      forall y | y in rest ensures le(s[0], y) {
        assert y in multiset(rest);
        assert y == x || y in s[1..];
      }
      ConsSorted(le, s[0], rest);
    } else {
      hide TotalPreorder;
      InsertsInFront(le, x, s);
    }
  }

  /** `Sort` is a sorted permutation. */
  lemma {:induction false} SortSorts<T(!new)>(le: (T, T) -> bool, s: seq<T>)
    requires TotalPreorder(le)
    ensures Sorted(le, Sort(le, s))
    ensures multiset(Sort(le, s)) == multiset(s)
    decreases |s|
  {
    hide TotalPreorder, Sorted;
    if s != [] {
      SortSorts(le, s[1..]);
      InsertSorts(le, s[0], Sort(le, s[1..]));
      assert s == [s[0]] + s[1..];
    } else {
      EmptySorted(le);
    }
  }

  lemma EmptySorted<T>(le: (T, T) -> bool)
    ensures Sorted(le, [])
  {
  }

  lemma SameElements<T(!new)>(a: seq<T>, b: seq<T>)
    requires multiset(a) == multiset(b)
    ensures |a| == |b|
    ensures forall x :: x in a <==> x in b
  {
    assert |multiset(a)| == |multiset(b)|;
    forall x ensures x in a <==> x in b {
      assert x in a <==> x in multiset(a);
      assert x in b <==> x in multiset(b);
    }
  }

  /** Sorting a sorted sequence changes nothing. */
  lemma {:induction false} SortOfSorted<T(!new)>(le: (T, T) -> bool, s: seq<T>)
    requires Sorted(le, s)
    ensures Sort(le, s) == s
    decreases |s|
  {
    if s != [] {
      SortOfSorted(le, s[1..]);
      assert s == [s[0]] + s[1..];
    }
  }

  function Select<T(!new)>(keep: T -> bool, s: seq<T>): (r: seq<T>)
    ensures forall x :: x in r <==> x in s && keep(x)
  {
    if s == [] then [] else (if keep(s[0]) then [s[0]] else []) + Select(keep, s[1..])
  }

  lemma {:induction false} SelectSorted<T(!new)>(le: (T, T) -> bool, keep: T -> bool, s: seq<T>)
    requires Sorted(le, s)
    ensures Sorted(le, Select(keep, s))
    decreases |s|
  {
    if s != [] {
      SelectSorted(le, keep, s[1..]);
      var rest := Select(keep, s[1..]);
      forall j | 0 <= j < |rest| ensures le(s[0], rest[j]) {
        assert rest[j] in s[1..];
      }
      assert Select(keep, s) == if keep(s[0]) then [s[0]] + rest else rest;
    }
  }

  /** Elements that tie keep their order: selecting a class of ties commutes with sorting. */
  lemma {:induction false} SortIsStable<T(!new)>(le: (T, T) -> bool, keep: T -> bool, s: seq<T>)
    requires TotalPreorder(le)
    requires forall x, y :: keep(x) && keep(y) ==> le(x, y)
    ensures Select(keep, Sort(le, s)) == Select(keep, s)
    decreases |s|
  {
    if s != [] {
      SortIsStable(le, keep, s[1..]);
      InsertKeepsClass(le, keep, s[0], Sort(le, s[1..]));
    }
  }

  lemma {:induction false} InsertKeepsClass<T(!new)>(le: (T, T) -> bool, keep: T -> bool, x: T, s: seq<T>)
    requires forall y, z :: keep(y) && keep(z) ==> le(y, z)
    ensures Select(keep, Insert(le, x, s)) == (if keep(x) then [x] else []) + Select(keep, s)
    decreases |s|
  {
    hide Select;
    SelectCons(keep, x, s);
    if s != [] && !le(x, s[0]) {
      assert s == [s[0]] + s[1..];
      InsertKeepsClass(le, keep, x, s[1..]);
      SelectCons(keep, s[0], s[1..]);
      SelectCons(keep, s[0], Insert(le, x, s[1..]));
    }
  }

  ghost predicate Distinct<T(!new)>(s: seq<T>) {
    forall i, j :: 0 <= i < j < |s| ==> s[i] != s[j]
  }

  lemma {:induction false} InsertDistinct<T(!new)>(le: (T, T) -> bool, x: T, s: seq<T>)
    requires Distinct(s) && x !in s
    ensures Distinct(Insert(le, x, s))
    ensures forall y :: y in Insert(le, x, s) <==> y == x || y in s
    decreases |s|
  {
    if s != [] && !le(x, s[0]) {
      assert s == [s[0]] + s[1..];
      InsertDistinct(le, x, s[1..]);
      assert s[0] !in s[1..] && s[0] !in Insert(le, x, s[1..]);
    }
  }

  lemma {:induction false} SortDistinct<T(!new)>(le: (T, T) -> bool, s: seq<T>)
    requires Distinct(s)
    ensures Distinct(Sort(le, s))
    ensures forall y :: y in Sort(le, s) <==> y in s
    decreases |s|
  {
    if s != [] {
      assert s == [s[0]] + s[1..];
      SortDistinct(le, s[1..]);
      InsertDistinct(le, s[0], Sort(le, s[1..]));
    }
  }

  lemma {:induction false} SelectCons<T(!new)>(keep: T -> bool, x: T, s: seq<T>)
    ensures Select(keep, [x] + s) == (if keep(x) then [x] else []) + Select(keep, s)
  {
    assert ([x] + s)[1..] == s;
  }

  lemma SelectNothing<T(!new)>(keep: T -> bool)
    ensures Select(keep, []) == []
  {
  }

  lemma {:induction false} SelectSnoc<T(!new)>(keep: T -> bool, s: seq<T>, x: T)
    ensures Select(keep, s + [x]) == Select(keep, s) + (if keep(x) then [x] else [])
    decreases |s|
  {
    hide Select;
    if s == [] {
      SelectNothing(keep);
      SelectCons(keep, x, []);
      assert s + [x] == [x] + [];
    } else {
      SelectSnoc(keep, s[1..], x);
      SelectCons(keep, s[0], s[1..]);
      SelectCons(keep, s[0], s[1..] + [x]);
      assert s == [s[0]] + s[1..] && s + [x] == [s[0]] + (s[1..] + [x]);
    }
  }

  /** The head of a selection is the first element selected. */
  lemma {:induction false} SelectFirst<T(!new)>(keep: T -> bool, s: seq<T>)
    requires Select(keep, s) != []
    ensures exists i :: 0 <= i < |s| && s[i] == Select(keep, s)[0] && forall k :: 0 <= k < i ==> !keep(s[k])
    decreases |s|
  {
    if keep(s[0]) {
      assert s[0] == Select(keep, s)[0];
    } else {
      assert Select(keep, s) == Select(keep, s[1..]);
      SelectFirst(keep, s[1..]);
      var i :| 0 <= i < |s[1..]| && s[1..][i] == Select(keep, s)[0] && forall k :: 0 <= k < i ==> !keep(s[1..][k]);
      assert s[i + 1] == Select(keep, s)[0];
      forall k | 0 <= k < i + 1 ensures !keep(s[k]) {
        if k > 0 {
          assert s[k] == s[1..][k - 1];
        }
      }
    }
  }

  lemma HeadLeast<T(!new)>(le: (T, T) -> bool, s: seq<T>)
    requires TotalPreorder(le) && Sorted(le, s) && s != []
    ensures forall x :: x in s ==> le(s[0], x)
  {
  }
}
