/** The derived view `filteredItems` of the inventory table (components/InventoryTable.tsx):
    keep the records whose lower-cased name contains the lower-cased search text, then, unless the
    status filter is "all", the records with that status, then sort a copy by one field in one
    direction with a stable sort. Everything here is a value: `items` is never changed. */
module Pipeline {
  import opened Types
  import Text
  import Sorting

  /** The column the table is sorted by (`keyof Item`). */
  datatype SortKey = ById | ByName | ByType | ByStatus | ByLastUpdated

  datatype Direction = Asc | Desc

  /** The value of one field: `id` is a number, every other field a string. */
  datatype KeyValue = Num(n: int) | Str(s: string)

  /** `item[sortKey]`. */
  function Field(x: Item, key: SortKey): (v: KeyValue)
    ensures v.Num? <==> key == ById
  {
    match key
    case ById => Num(x.id)
    case ByName => Str(x.name)
    case ByType => Str(x.itemType)
    case ByStatus => Str(StatusText(x.status))
    case ByLastUpdated => Str(x.lastUpdated)
  }

  /** JavaScript's `<` between two values of the same field: numeric on numbers,
      lexicographic on strings. */
  predicate ValueLess(a: KeyValue, b: KeyValue)
  {
    match (a, b)
    case (Num(m), Num(n)) => m < n
    case (Str(s), Str(t)) => Text.StrLess(s, t)
    case _ => false
  }

  lemma ValueLessIrreflexive(a: KeyValue)
    ensures !ValueLess(a, a)
  {
    if a.Str? { Text.StrLessIrreflexive(a.s); }
  }

  lemma ValueLessAsymmetric(a: KeyValue, b: KeyValue)
    ensures ValueLess(a, b) ==> !ValueLess(b, a)
  {
    if a.Str? && b.Str? { Text.StrLessAsymmetric(a.s, b.s); }
  }

  lemma ValueLessTransitive(a: KeyValue, b: KeyValue, c: KeyValue)
    ensures ValueLess(a, b) && ValueLess(b, c) ==> ValueLess(a, c)
  {
    if a.Str? && b.Str? && c.Str? { Text.StrLessTransitive(a.s, b.s, c.s); }
  }

  /** Two values of the same kind that are not ordered either way are equal. */
  lemma ValueLessTotal(a: KeyValue, b: KeyValue)
    requires a.Num? == b.Num?
    ensures a != b ==> ValueLess(a, b) || ValueLess(b, a)
  {
    if a.Str? { Text.StrLessTotal(a.s, b.s); }
  }

  /** The comparator passed to `sort`: -1, 1 or 0, with the sign reversed for "desc". */
  function Compare(a: Item, b: Item, key: SortKey, dir: Direction): (c: int)
    ensures c == -1 || c == 0 || c == 1
  {
    var av, bv := Field(a, key), Field(b, key);
    if ValueLess(av, bv) then (if dir == Asc then -1 else 1)
    else if ValueLess(bv, av) then (if dir == Asc then 1 else -1)
    else 0
  }

  /** The comparator returns 0 exactly on records whose sort field is equal. */
  lemma CompareZeroIffEqualKeys(a: Item, b: Item, key: SortKey, dir: Direction)
    ensures Compare(a, b, key, dir) == 0 <==> Field(a, key) == Field(b, key)
  {
    ValueLessIrreflexive(Field(a, key));
    ValueLessTotal(Field(a, key), Field(b, key));
  }

  /** Swapping the arguments negates the result. */
  lemma CompareAntisymmetric(a: Item, b: Item, key: SortKey, dir: Direction)
    ensures Compare(a, b, key, dir) == -Compare(b, a, key, dir)
  {
    ValueLessAsymmetric(Field(a, key), Field(b, key));
  }

  /** "may come before" is transitive, so the comparator is consistent. */
  lemma CompareTransitive(a: Item, b: Item, c: Item, key: SortKey, dir: Direction)
    requires Compare(a, b, key, dir) <= 0 && Compare(b, c, key, dir) <= 0
    ensures Compare(a, c, key, dir) <= 0
  {
    var av, bv, cv := Field(a, key), Field(b, key), Field(c, key);
    ValueLessTotal(av, bv);
    ValueLessTotal(bv, cv);
    ValueLessTotal(av, cv);
    ValueLessAsymmetric(av, bv);
    ValueLessAsymmetric(bv, cv);
    ValueLessAsymmetric(av, cv);
    ValueLessTransitive(av, bv, cv);
    ValueLessTransitive(cv, bv, av);
    ValueLessTransitive(av, cv, bv);
    ValueLessTransitive(bv, av, cv);
    ValueLessTransitive(cv, av, bv);
    ValueLessTransitive(bv, cv, av);
  }

  /** The comparator as the function value handed to `sort`. */
  function CompareFn(key: SortKey, dir: Direction): (Item, Item) -> int
  {
    (a, b) => Compare(a, b, key, dir)
  }

  /** The comparator is consistent in both directions, as `sort` requires of it. */
  lemma CompareConsistent(key: SortKey, dir: Direction)
    ensures Sorting.Consistent(CompareFn(key, dir))
  {
    var cmp := CompareFn(key, dir);
    forall a, b ensures cmp(a, b) == -cmp(b, a) {
      CompareAntisymmetric(a, b, key, dir);
    }
    forall a, b, c | cmp(a, b) <= 0 && cmp(b, c) <= 0 ensures cmp(a, c) <= 0 {
      CompareTransitive(a, b, c, key, dir);
    }
  }

  /** Sorted "asc" means non-decreasing in the field, sorted "desc" non-increasing. */
  lemma SortedMeansMonotone(s: seq<Item>, key: SortKey)
    ensures Sorting.Sorted(s, CompareFn(key, Asc)) <==>
      forall i, j :: 0 <= i < j < |s| ==> !ValueLess(Field(s[j], key), Field(s[i], key))
    ensures Sorting.Sorted(s, CompareFn(key, Desc)) <==>
      forall i, j :: 0 <= i < j < |s| ==> !ValueLess(Field(s[i], key), Field(s[j], key))
  {
    forall i, j | 0 <= i < j < |s|
      ensures Compare(s[i], s[j], key, Asc) <= 0 <==> !ValueLess(Field(s[j], key), Field(s[i], key))
      ensures Compare(s[i], s[j], key, Desc) <= 0 <==> !ValueLess(Field(s[i], key), Field(s[j], key))
    {
      ValueLessAsymmetric(Field(s[i], key), Field(s[j], key));
    }
    assert forall i, j :: 0 <= i < j < |s| ==> CompareFn(key, Asc)(s[i], s[j]) == Compare(s[i], s[j], key, Asc);
    assert forall i, j :: 0 <= i < j < |s| ==> CompareFn(key, Desc)(s[i], s[j]) == Compare(s[i], s[j], key, Desc);
  }

  /** The records of `s` whose sort field has the value `v`, in their order in `s`. */
  function SameKey(s: seq<Item>, key: SortKey, v: KeyValue): (r: seq<Item>)
    ensures |r| <= |s|
  {
    if s == [] then []
    else SameKey(s[..|s| - 1], key, v) + (if Field(s[|s| - 1], key) == v then [s[|s| - 1]] else [])
  }

  /** The records tied with `y` under the comparator are exactly those with `y`'s key. */
  lemma {:induction false} TiesAreSameKey(s: seq<Item>, y: Item, key: SortKey, dir: Direction)
    ensures Sorting.Ties(s, y, CompareFn(key, dir)) == SameKey(s, key, Field(y, key))
    decreases |s|
  {
    if s != [] {
      TiesAreSameKey(s[..|s| - 1], y, key, dir);
      CompareZeroIffEqualKeys(s[|s| - 1], y, key, dir);
    }
  }

  lemma {:induction false} SameKeyNone(s: seq<Item>, key: SortKey, v: KeyValue)
    requires forall i :: 0 <= i < |s| ==> Field(s[i], key) != v
    ensures SameKey(s, key, v) == []
    decreases |s|
  {
    if s != [] { SameKeyNone(s[..|s| - 1], key, v); }
  }

  /** The table's sort: ordered by the sort key, a permutation, and stable in the sense that the
      records with any one key value keep their order. */
  lemma SortByKeyCorrect(s: seq<Item>, key: SortKey, dir: Direction)
    ensures Sorting.Sorted(Sorting.Sort(s, CompareFn(key, dir)), CompareFn(key, dir))
    ensures multiset(Sorting.Sort(s, CompareFn(key, dir))) == multiset(s)
    ensures forall v :: SameKey(Sorting.Sort(s, CompareFn(key, dir)), key, v) == SameKey(s, key, v)
  {
    var cmp := CompareFn(key, dir);
    var r := Sorting.Sort(s, cmp);
    CompareConsistent(key, dir);
    Sorting.SortCorrect(s, cmp);
    forall v ensures SameKey(r, key, v) == SameKey(s, key, v) {
      if i :| 0 <= i < |s| && Field(s[i], key) == v {
        TiesAreSameKey(r, s[i], key, dir);
        TiesAreSameKey(s, s[i], key, dir);
      } else {
        SameKeyNone(s, key, v);
        forall i | 0 <= i < |r| ensures Field(r[i], key) != v {
          assert r[i] in multiset(s);
        }
        SameKeyNone(r, key, v);
      }
    }
  }

  /** `item.name.toLowerCase().includes(filter.toLowerCase())`. */
  predicate MatchesSearch(x: Item, filter: string)
  {
    Text.Includes(Text.Lower(x.name), Text.Lower(filter))
  }

  /** The status step's test: "all" keeps everything, any other value keeps the exact status. */
  predicate MatchesStatus(x: Item, statusFilter: string)
  {
    statusFilter == "all" || StatusText(x.status) == statusFilter
  }

  /** The first `filter` call. */
  function SearchStep(items: seq<Item>, filter: string): (r: seq<Item>)
    ensures |r| <= |items|
    ensures forall i :: 0 <= i < |r| ==> MatchesSearch(r[i], filter)
  {
    if items == [] then []
    else (
      var rest, last := items[..|items| - 1], items[|items| - 1];
      assert items == rest + [last];
      SearchStep(rest, filter) + (if MatchesSearch(last, filter) then [last] else []))
  }

  /** The second `filter` call, made only when the status filter is not "all". */
  function StatusStep(items: seq<Item>, statusFilter: string): (r: seq<Item>)
    ensures |r| <= |items|
    ensures forall i :: 0 <= i < |r| ==> MatchesStatus(r[i], statusFilter)
  {
    if statusFilter == "all" then items
    else if items == [] then []
    else (
      var rest, last := items[..|items| - 1], items[|items| - 1];
      assert items == rest + [last];
      StatusStep(rest, statusFilter) + (if StatusText(last.status) == statusFilter then [last] else []))
  }

  /** The subsequence of `items` satisfying both tests, in one pass: what the two steps select. */
  function Selected(items: seq<Item>, filter: string, statusFilter: string): (r: seq<Item>)
  {
    if items == [] then []
    else (
      var rest, last := items[..|items| - 1], items[|items| - 1];
      Selected(rest, filter, statusFilter)
      + (if MatchesSearch(last, filter) && MatchesStatus(last, statusFilter) then [last] else []))
  }

  /** A record is selected exactly when it is one of `items` and passes both tests, and it is
      selected as often as it occurs in `items`. */
  lemma {:induction false} SelectedExactly(items: seq<Item>, filter: string, statusFilter: string, x: Item)
    ensures x in Selected(items, filter, statusFilter) <==>
      x in items && MatchesSearch(x, filter) && MatchesStatus(x, statusFilter)
    ensures multiset(Selected(items, filter, statusFilter))[x]
         == if MatchesSearch(x, filter) && MatchesStatus(x, statusFilter) then multiset(items)[x] else 0
    decreases |items|
  {
    var keep := MatchesSearch(x, filter) && MatchesStatus(x, statusFilter);
    SelectedCount(items, filter, statusFilter, x, keep);
    assert x in items <==> multiset(items)[x] > 0;
  }

  lemma {:induction false} SelectedCount(items: seq<Item>, filter: string, statusFilter: string, x: Item, keep: bool)
    requires keep == (MatchesSearch(x, filter) && MatchesStatus(x, statusFilter))
    ensures multiset(Selected(items, filter, statusFilter))[x] == if keep then multiset(items)[x] else 0
    decreases |items|
  {
    if items != [] {
      var rest, last := items[..|items| - 1], items[|items| - 1];
      SelectedCount(rest, filter, statusFilter, x, keep);
      assert items == rest + [last];
      var tail := if MatchesSearch(last, filter) && MatchesStatus(last, statusFilter) then [last] else [];
      assert Selected(items, filter, statusFilter) == Selected(rest, filter, statusFilter) + tail;
      assert multiset(items)[x] == multiset(rest)[x] + multiset([last])[x];
      assert multiset(Selected(items, filter, statusFilter))[x]
          == multiset(Selected(rest, filter, statusFilter))[x] + multiset(tail)[x];
    }
  }

  lemma {:induction false} SelectedShorter(items: seq<Item>, filter: string, statusFilter: string)
    ensures |Selected(items, filter, statusFilter)| <= |items|
    decreases |items|
  {
    if items != [] { SelectedShorter(items[..|items| - 1], filter, statusFilter); }
  }

  lemma {:induction false} StepsSelect(items: seq<Item>, filter: string, statusFilter: string)
    ensures StatusStep(SearchStep(items, filter), statusFilter) == Selected(items, filter, statusFilter)
    decreases |items|
  {
    if items != [] {
      var rest, last := items[..|items| - 1], items[|items| - 1];
      StepsSelect(rest, filter, statusFilter);
      var a := SearchStep(rest, filter);
      assert SearchStep(items, filter) == a + (if MatchesSearch(last, filter) then [last] else []);
      if statusFilter == "all" {
      } else if MatchesSearch(last, filter) {
        var b := a + [last];
        assert b[..|b| - 1] == a;
        assert StatusStep(b, statusFilter)
            == StatusStep(a, statusFilter) + (if StatusText(last.status) == statusFilter then [last] else []);
      } else {
        assert a + [] == a;
      }
    }
  }

  /** `filteredItems`. */
  function FilteredItems(items: seq<Item>, filter: string, statusFilter: string,
                         key: SortKey, dir: Direction): seq<Item>
  {
    Sorting.Sort(StatusStep(SearchStep(items, filter), statusFilter), CompareFn(key, dir))
  }

  /** What `filteredItems` promises: no longer than `items`; every record passes the search and the
      status test; a permutation of the subsequence of `items` passing both; ordered by the sort
      key; and records with equal keys in their order in `items`. */
  lemma FilteredItemsCorrect(items: seq<Item>, filter: string, statusFilter: string,
                             key: SortKey, dir: Direction)
    ensures |FilteredItems(items, filter, statusFilter, key, dir)| <= |items|
    ensures forall x :: x in FilteredItems(items, filter, statusFilter, key, dir) ==>
      x in items && MatchesSearch(x, filter) && MatchesStatus(x, statusFilter)
    ensures multiset(FilteredItems(items, filter, statusFilter, key, dir))
         == multiset(Selected(items, filter, statusFilter))
    ensures Sorting.Sorted(FilteredItems(items, filter, statusFilter, key, dir), CompareFn(key, dir))
    ensures forall v :: SameKey(FilteredItems(items, filter, statusFilter, key, dir), key, v)
                     == SameKey(Selected(items, filter, statusFilter), key, v)
  {
    var selected := StatusStep(SearchStep(items, filter), statusFilter);
    StepsSelect(items, filter, statusFilter);
    SortByKeyCorrect(selected, key, dir);
    forall x | x in FilteredItems(items, filter, statusFilter, key, dir)
      ensures x in items && MatchesSearch(x, filter) && MatchesStatus(x, statusFilter)
    {
      assert x in multiset(selected);
      SelectedExactly(items, filter, statusFilter, x);
    }
    SelectedShorter(items, filter, statusFilter);
  }

  /** An empty search text keeps every record. */
  lemma {:induction false} EmptySearchKeepsAll(items: seq<Item>)
    ensures SearchStep(items, "") == items
    decreases |items|
  {
    if items != [] {
      EmptySearchKeepsAll(items[..|items| - 1]);
      assert items == items[..|items| - 1] + [items[|items| - 1]];
    }
  }

  /** With status filter "all" the status step drops nothing. */
  lemma AllStatusKeepsAll(items: seq<Item>)
    ensures StatusStep(items, "all") == items
  {
  }

  /** With no search text and status "all", the view is a reordering of all of `items`. */
  lemma NoFilterIsPermutation(items: seq<Item>, key: SortKey, dir: Direction)
    ensures multiset(FilteredItems(items, "", "all", key, dir)) == multiset(items)
  {
    EmptySearchKeepsAll(items);
    SortByKeyCorrect(items, key, dir);
  }

  /** Ids 1, 2, 3 with statuses Active, Inactive, Active, filtered to "Active" and sorted by id
      descending, give ids 3 and 1. */
  lemma ActiveByIdDescending(t: string)
    ensures FilteredItems([Item(1, "Item 1", "Asset", Active, t),
                           Item(2, "Item 2", "Certificate", Inactive, t),
                           Item(3, "Item 3", "Asset", Active, t)], "", "Active", ById, Desc)
         == [Item(3, "Item 3", "Asset", Active, t), Item(1, "Item 1", "Asset", Active, t)]
  {
    var a := Item(1, "Item 1", "Asset", Active, t);
    var b := Item(2, "Item 2", "Certificate", Inactive, t);
    var c := Item(3, "Item 3", "Asset", Active, t);
    EmptySearchKeepsAll([a, b, c]);
    assert [a, b, c][..2] == [a, b];
    assert [a, b][..1] == [a];
    assert [a][..0] == [];
    assert StatusStep([a], "Active") == [a];
    assert StatusStep([a, b], "Active") == [a];
    assert StatusStep([a, b, c], "Active") == [a, c];
    assert [a, c][..1] == [a];
    var cmp := CompareFn(ById, Desc);
    assert cmp(a, c) == 1;
    assert Sorting.Sort([a], cmp) == [a];
    assert Sorting.Insert(c, [a], cmp) == [c, a];
  }
}
