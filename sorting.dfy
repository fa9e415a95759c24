/** `Array.prototype.sort(comparefn)` as the language standard requires it to behave since its
    2019 edition: given a consistent comparator, the result is a permutation of the input, ordered
    by the comparator, and stable (elements that compare equal keep their relative order). The
    algorithm is an insertion sort that takes the elements in input order. */
module Sorting {

  /** A consistent comparator: swapping the arguments negates the result, and "may come before"
      (a result <= 0) is transitive. */
  ghost predicate Consistent<T(!new)>(cmp: (T, T) -> int)
  {
    && (forall a, b :: cmp(a, b) == -cmp(b, a))
    && (forall a, b, c :: cmp(a, b) <= 0 && cmp(b, c) <= 0 ==> cmp(a, c) <= 0)
  }

  /** Every earlier element may come before every later one. */
  ghost predicate Sorted<T>(s: seq<T>, cmp: (T, T) -> int)
  {
    forall i, j :: 0 <= i < j < |s| ==> cmp(s[i], s[j]) <= 0
  }

  /** The elements of `s` that compare equal to `y`, in their order in `s`. */
  function Ties<T>(s: seq<T>, y: T, cmp: (T, T) -> int): (r: seq<T>)
    ensures |r| <= |s|
  {
    if s == [] then []
    else Ties(s[..|s| - 1], y, cmp) + (if cmp(s[|s| - 1], y) == 0 then [s[|s| - 1]] else [])
  }

  /** Inserts `x` into `s` behind every element that may come before it. */
  function Insert<T>(x: T, s: seq<T>, cmp: (T, T) -> int): (r: seq<T>)
    ensures |r| == |s| + 1
  {
    if s == [] then [x]
    else if cmp(s[|s| - 1], x) <= 0 then s + [x]
    else Insert(x, s[..|s| - 1], cmp) + [s[|s| - 1]]
  }

  /** The sort of a copy of `s`. */
  function Sort<T>(s: seq<T>, cmp: (T, T) -> int): (r: seq<T>)
    ensures |r| == |s|
  {
    if s == [] then [] else Insert(s[|s| - 1], Sort(s[..|s| - 1], cmp), cmp)
  }

  lemma SortedPrefix<T>(s: seq<T>, cmp: (T, T) -> int)
    requires s != [] && Sorted(s, cmp)
    ensures Sorted(s[..|s| - 1], cmp)
  {
    var s' := s[..|s| - 1];
    forall i, j | 0 <= i < j < |s'| ensures cmp(s'[i], s'[j]) <= 0 {
      assert s'[i] == s[i] && s'[j] == s[j];
    }
  }

  /** Every element of `s` may come before `y`. */
  ghost predicate AllBefore<T>(s: seq<T>, y: T, cmp: (T, T) -> int)
  {
    forall i :: 0 <= i < |s| ==> cmp(s[i], y) <= 0
  }

  lemma {:induction false} InsertAllBefore<T>(x: T, s: seq<T>, y: T, cmp: (T, T) -> int)
    requires AllBefore(s, y, cmp) && cmp(x, y) <= 0
    ensures AllBefore(Insert(x, s, cmp), y, cmp)
    decreases |s|
  {
    if s != [] && cmp(s[|s| - 1], x) > 0 {
      var s' := s[..|s| - 1];
      assert AllBefore(s', y, cmp) by {
        forall i | 0 <= i < |s'| ensures cmp(s'[i], y) <= 0 {
          assert s'[i] == s[i];
        }
      }
      InsertAllBefore(x, s', y, cmp);
    }
  }

  lemma {:induction false} InsertSorted<T(!new)>(x: T, s: seq<T>, cmp: (T, T) -> int)
    requires Consistent(cmp) && Sorted(s, cmp)
    ensures Sorted(Insert(x, s, cmp), cmp)
    decreases |s|
  {
    if s == [] {
    } else if cmp(s[|s| - 1], x) <= 0 {
      var r := s + [x];
      forall i, j | 0 <= i < j < |r| ensures cmp(r[i], r[j]) <= 0 {
        if j < |s| {
          assert r[i] == s[i] && r[j] == s[j];
        } else if i < |s| - 1 {
          assert cmp(s[i], s[|s| - 1]) <= 0;
        }
      }
    } else {
      var s', last := s[..|s| - 1], s[|s| - 1];
      SortedPrefix(s, cmp);
      assert AllBefore(s', last, cmp) by {
        forall i | 0 <= i < |s'| ensures cmp(s'[i], last) <= 0 {
          assert s'[i] == s[i];
        }
      }
      InsertSorted(x, s', cmp);
      assert cmp(x, last) <= 0;
      InsertAllBefore(x, s', last, cmp);
      var ins := Insert(x, s', cmp);
      var r := ins + [last];
      forall i, j | 0 <= i < j < |r| ensures cmp(r[i], r[j]) <= 0 {
        if j < |ins| {
          assert r[i] == ins[i] && r[j] == ins[j];
        } else {
          assert r[i] == ins[i] && r[j] == last;
        }
      }
    }
  }

  lemma {:induction false} InsertPermutes<T>(x: T, s: seq<T>, cmp: (T, T) -> int)
    ensures multiset(Insert(x, s, cmp)) == multiset(s) + multiset{x}
    decreases |s|
  {
    if s != [] && cmp(s[|s| - 1], x) > 0 {
      InsertPermutes(x, s[..|s| - 1], cmp);
      assert s == s[..|s| - 1] + [s[|s| - 1]];
    }
  }

  lemma TiesSnoc<T>(s: seq<T>, e: T, y: T, cmp: (T, T) -> int)
    ensures Ties(s + [e], y, cmp) == Ties(s, y, cmp) + (if cmp(e, y) == 0 then [e] else [])
  {
    assert (s + [e])[..|s|] == s;
  }

  /** Two elements that do not compare equal are never tied to the same element. */
  lemma TieClassesDisjoint<T(!new)>(x: T, last: T, y: T, cmp: (T, T) -> int)
    requires Consistent(cmp) && cmp(last, x) != 0
    ensures !(cmp(x, y) == 0 && cmp(last, y) == 0)
  {
  }

  /** Moving `x` in front of an element that is not tied with it leaves every tie class in the
      same order. */
  lemma TiesMovePast<T>(ins: seq<T>, s': seq<T>, x: T, last: T, y: T, cmp: (T, T) -> int)
    requires !(cmp(x, y) == 0 && cmp(last, y) == 0)
    requires Ties(ins, y, cmp) == Ties(s' + [x], y, cmp)
    ensures Ties(ins + [last], y, cmp) == Ties(s' + [last] + [x], y, cmp)
  {
    TiesSnoc(ins, last, y, cmp);
    TiesSnoc(s', x, y, cmp);
    TiesSnoc(s' + [last], x, y, cmp);
    TiesSnoc(s', last, y, cmp);
  }

  /** Inserting `x` puts it behind the elements that compare equal to it. */
  lemma {:induction false} InsertStable<T(!new)>(x: T, s: seq<T>, y: T, cmp: (T, T) -> int)
    requires Consistent(cmp)
    ensures Ties(Insert(x, s, cmp), y, cmp) == Ties(s + [x], y, cmp)
    decreases |s|
  {
    if s != [] && cmp(s[|s| - 1], x) > 0 {
      var s', last := s[..|s| - 1], s[|s| - 1];
      InsertStable(x, s', y, cmp);
      TieClassesDisjoint(x, last, y, cmp);
      TiesMovePast(Insert(x, s', cmp), s', x, last, y, cmp);
      assert s' + [last] == s;
    }
  }

  /** The sort's promise: ordered, a permutation, and stable. */
  lemma {:induction false} SortCorrect<T(!new)>(s: seq<T>, cmp: (T, T) -> int)
    requires Consistent(cmp)
    ensures Sorted(Sort(s, cmp), cmp)
    ensures multiset(Sort(s, cmp)) == multiset(s)
    ensures forall y :: Ties(Sort(s, cmp), y, cmp) == Ties(s, y, cmp)
    decreases |s|
  {
    if s != [] {
      var s', last := s[..|s| - 1], s[|s| - 1];
      assert s == s' + [last];
      var sorted' := Sort(s', cmp);
      SortCorrect(s', cmp);
      InsertSorted(last, sorted', cmp);
      InsertPermutes(last, sorted', cmp);
      forall y ensures Ties(Sort(s, cmp), y, cmp) == Ties(s, y, cmp) {
        InsertStable(last, sorted', y, cmp);
        TiesSnoc(s', last, y, cmp);
      }
    }
  }

  /** Sorting a sequence that is already in order returns it unchanged. */
  lemma {:induction false} SortOfSortedIsIdentity<T>(s: seq<T>, cmp: (T, T) -> int)
    requires Sorted(s, cmp)
    ensures Sort(s, cmp) == s
    decreases |s|
  {
    if s != [] {
      var s' := s[..|s| - 1];
      SortedPrefix(s, cmp);
      SortOfSortedIsIdentity(s', cmp);
      if |s'| > 0 {
        assert cmp(s'[|s'| - 1], s[|s| - 1]) <= 0;
      }
      assert s' + [s[|s| - 1]] == s;
    }
  }
}
