/** The state of the inventory table (components/InventoryTable.tsx): the view state, the column
    header toggle, the debounced refresh that commits `filteredItems` into `displayItems`, and the
    choice between skeleton, empty message and virtualized list. React's re-rendering and
    `setTimeout` are replaced by explicit calls: a setter runs the effect when a dependency of
    `filteredItems` really changed, and `Fire` is the moment the armed timer goes off. */
module Table {
  import opened Types
  import opened Pipeline
  import Data
  import Sorting

  datatype SortState = SortState(key: SortKey, dir: Direction)

  function Flip(d: Direction): (r: Direction)
    ensures r != d
  {
    if d == Asc then Desc else Asc
  }

  /** `handleSort(k)`: the same column flips the direction, another column sorts ascending by it. */
  function NextSort(cur: SortState, k: SortKey): (r: SortState)
    ensures r.key == k
    ensures k == cur.key ==> r.dir != cur.dir
    ensures k != cur.key ==> r.dir == Asc
  {
    if cur.key == k then SortState(k, Flip(cur.dir)) else SortState(k, Asc)
  }

  /** Clicking the current column twice restores the sort. */
  lemma NextSortTwiceRestores(cur: SortState)
    ensures NextSort(NextSort(cur, cur.key), cur.key) == cur
  {
  }

  /** Clicking another column and then that column again gives a descending sort by it. */
  lemma NextSortOtherTwice(cur: SortState, k: SortKey)
    requires k != cur.key
    ensures NextSort(NextSort(cur, k), k) == SortState(k, Desc)
  {
  }

  /** The row height the virtualizer is told to estimate. */
  const EstimateSize := 50

  /** What the table body shows. `List` is the virtualized container, with the count and row-size
      estimate handed to the virtualizer. */
  datatype Screen = Skeleton | NoResults | List(count: nat, estimateSize: nat)

  /** The body's three-way choice: loading wins, then an empty result, then the list. */
  function Render(isLoading: bool, displayItems: seq<Item>): (r: Screen)
    ensures r.Skeleton? <==> isLoading
    ensures r.NoResults? <==> !isLoading && |displayItems| == 0
    ensures r.List? <==> !isLoading && |displayItems| > 0
    ensures r.List? ==> r.count == |displayItems| && r.estimateSize == EstimateSize
  {
    if isLoading then Skeleton
    else if |displayItems| == 0 then NoResults
    else List(|displayItems|, EstimateSize)
  }

  /** An empty committed result shows the empty message, never the skeleton or an empty list. */
  lemma EmptyResultShowsMessage(displayItems: seq<Item>)
    requires |displayItems| == 0
    ensures Render(false, displayItems) == NoResults
  {
  }

  /** For the list the page passes in, the default view (no search, status "all", id ascending)
      is the list itself, so the first commit shows the same rows the first render did. */
  lemma DefaultViewOfGeneratedList(count: int, now: nat -> string)
    ensures FilteredItems(Data.GenerateItems(count, now), "", "all", ById, Asc) == Data.GenerateItems(count, now)
  {
    var items := Data.GenerateItems(count, now);
    EmptySearchKeepsAll(items);
    var cmp := CompareFn(ById, Asc);
    assert Sorting.Sorted(items, cmp) by {
      forall i, j | 0 <= i < j < |items| ensures cmp(items[i], items[j]) <= 0 {
        Data.GeneratedIdsAscending(count, now, i, j);
      }
    }
    Sorting.SortOfSortedIsIdentity(items, cmp);
  }

  class InventoryTable {
    /** The current `items` prop. The table never changes it; the parent may pass a new one. */
    var items: seq<Item>
    /** The `items` prop of the first render, which seeds `displayItems`. */
    ghost const initialItems: seq<Item>
    var filter: string
    var statusFilter: string
    var sortKey: SortKey
    var sortDirection: Direction
    var isLoading: bool
    var displayItems: seq<Item>
    /** The armed timer, holding the `filteredItems` its callback will commit; `None` when no timer
        is pending. */
    var pending: Option<seq<Item>>
    var mounted: bool
    /** Every value ever written to `displayItems` by a timer, oldest first. */
    ghost var commits: seq<seq<Item>>

    /** The memoized `filteredItems` of the current view state. */
    function Derived(): seq<Item>
      reads this
    {
      FilteredItems(items, filter, statusFilter, sortKey, sortDirection)
    }

    /** A pending commit always holds the latest `filteredItems`; while mounted, loading is shown
        exactly while a commit is pending; after teardown nothing is pending; and `displayItems` is
        the last committed result, or the first render's prop before any commit. */
    ghost predicate Valid()
      reads this
    {
      && (pending.Some? ==> mounted && pending.value == Derived())
      && (mounted ==> (isLoading <==> pending.Some?))
      && Committed()
    }

    /** `displayItems` is the last committed result, or the first render's prop before any commit. */
    ghost predicate Committed()
      reads this
    {
      displayItems == (if commits == [] then initialItems else commits[|commits| - 1])
    }

    /** The first render: the initial `useState` values. */
    constructor (items: seq<Item>)
      ensures Valid()
      ensures this.items == items && initialItems == items && filter == "" && statusFilter == "all"
      ensures sortKey == ById && sortDirection == Asc
      ensures !isLoading && displayItems == items && pending.None? && mounted && commits == []
    {
      this.items := items;
      initialItems := items;
      filter, statusFilter := "", "all";
      sortKey, sortDirection := ById, Asc;
      isLoading, displayItems := false, items;
      pending, mounted := None, true;
      commits := [];
    }

    /** The effect on `[filteredItems]`: the previous run's cleanup clears its timer, then
        loading is set and a new timer is armed with the current `filteredItems`. React runs it
        after the first render and after every render with a new `filteredItems`. */
    method RunEffect()
      requires mounted && Committed()
      modifies this`isLoading, this`pending
      ensures Valid()
      ensures isLoading && pending == Some(Derived())
    {
      pending := None;
      isLoading := true;
      pending := Some(Derived());
    }

    /** `setFilter(f)` from the search box. Setting the same value changes nothing and runs no
        effect; a new value re-arms the timer. */
    method SetFilter(f: string)
      requires Valid()
      modifies this
      ensures Valid()
      ensures items == old(items)
      ensures commits == old(commits) && displayItems == old(displayItems)
      ensures statusFilter == old(statusFilter) && sortKey == old(sortKey) && sortDirection == old(sortDirection)
      ensures mounted == old(mounted)
      ensures if old(mounted) && f != old(filter)
              then filter == f && isLoading && pending == Some(Derived())
              else filter == old(filter) && isLoading == old(isLoading) && pending == old(pending)
    {
      if mounted && f != filter {
        filter := f;
        RunEffect();
      }
    }

    /** `setStatusFilter(s)` from the status select. */
    method SetStatusFilter(sf: string)
      requires Valid()
      modifies this
      ensures Valid()
      ensures items == old(items)
      ensures commits == old(commits) && displayItems == old(displayItems)
      ensures filter == old(filter) && sortKey == old(sortKey) && sortDirection == old(sortDirection)
      ensures mounted == old(mounted)
      ensures if old(mounted) && sf != old(statusFilter)
              then statusFilter == sf && isLoading && pending == Some(Derived())
              else statusFilter == old(statusFilter) && isLoading == old(isLoading) && pending == old(pending)
    {
      if mounted && sf != statusFilter {
        statusFilter := sf;
        RunEffect();
      }
    }

    /** `handleSort(k)` from a column header. Either the key or the direction changes, so the
        effect always runs again. */
    method HandleSort(k: SortKey)
      requires Valid()
      modifies this
      ensures Valid()
      ensures items == old(items)
      ensures commits == old(commits) && displayItems == old(displayItems)
      ensures filter == old(filter) && statusFilter == old(statusFilter)
      ensures mounted == old(mounted)
      ensures if old(mounted)
              then SortState(sortKey, sortDirection) == NextSort(SortState(old(sortKey), old(sortDirection)), k)
                   && isLoading && pending == Some(Derived())
              else sortKey == old(sortKey) && sortDirection == old(sortDirection)
                   && isLoading == old(isLoading) && pending == old(pending)
    {
      if mounted {
        var next := NextSort(SortState(sortKey, sortDirection), k);
        sortKey, sortDirection := next.key, next.dir;
        RunEffect();
      }
    }

    /** The parent renders the table again with a new `items` array. The memo depends on it, so
        `filteredItems` is a new array and the effect runs again: loading is set and the timer re-armed
        with the view of the new prop, while `displayItems` keeps its earlier value. */
    method SetItems(newItems: seq<Item>)
      requires Valid()
      modifies this
      ensures Valid()
      ensures commits == old(commits) && displayItems == old(displayItems)
      ensures filter == old(filter) && statusFilter == old(statusFilter)
      ensures sortKey == old(sortKey) && sortDirection == old(sortDirection)
      ensures mounted == old(mounted)
      ensures if old(mounted)
              then items == newItems && isLoading && pending == Some(Derived())
              else items == old(items) && isLoading == old(isLoading) && pending == old(pending)
    {
      if mounted {
        items := newItems;
        RunEffect();
      }
    }

    /** The armed timer goes off: its `filteredItems`, which is the latest one, becomes
        `displayItems` and loading ends. With no timer armed nothing happens. */
    method Fire()
      requires Valid()
      modifies this
      ensures Valid()
      ensures items == old(items)
      ensures filter == old(filter) && statusFilter == old(statusFilter)
      ensures sortKey == old(sortKey) && sortDirection == old(sortDirection) && mounted == old(mounted)
      ensures old(pending).Some? ==>
        displayItems == old(Derived()) && !isLoading && pending.None? && commits == old(commits) + [old(Derived())]
      ensures old(pending).None? ==>
        displayItems == old(displayItems) && isLoading == old(isLoading) && pending.None? && commits == old(commits)
    {
      if pending.Some? {
        displayItems := pending.value;
        isLoading := false;
        commits := commits + [pending.value];
        pending := None;
      }
    }

    /** Teardown: the effect's cleanup clears the pending timer, so no commit can follow. */
    method Unmount()
      requires Valid()
      modifies this
      ensures Valid()
      ensures items == old(items)
      ensures !mounted && pending.None?
      ensures filter == old(filter) && statusFilter == old(statusFilter)
      ensures sortKey == old(sortKey) && sortDirection == old(sortDirection)
      ensures isLoading == old(isLoading) && displayItems == old(displayItems) && commits == old(commits)
    {
      pending := None;
      mounted := false;
    }

    /** What the table body shows now, read against the scheduler: the skeleton exactly while a
        timer is armed, the message exactly when nothing is armed and the committed result is
        empty, and otherwise every committed row. */
    function View(): (r: Screen)
      reads this
      requires Valid() && mounted
      ensures r.Skeleton? <==> pending.Some?
      ensures r.NoResults? <==> pending.None? && |displayItems| == 0
      ensures r.List? ==> r.count == |displayItems| && r.estimateSize == EstimateSize
    {
      Render(isLoading, displayItems)
    }

    /** `displayItems[virtualRow.index]` for a row the virtualizer returns. That every such index is
        below the count the virtualizer was given is the library's promise, taken here as the
        precondition. */
    function RowAt(index: nat): (r: Item)
      reads this
      requires Valid() && mounted && View().List? && index < View().count
      ensures r in displayItems
    {
      displayItems[index]
    }
  }

  /** Typing two characters in a row and then letting the timer go off commits only the second
      search's result: one commit, for the last view state of the burst. */
  method TypeTwiceThenWait(t: InventoryTable, first: string, second: string)
    requires t.Valid() && t.mounted && first != t.filter && second != first
    modifies t
    ensures t.Valid() && t.mounted && !t.isLoading
    ensures t.commits == old(t.commits) + [FilteredItems(t.items, second, t.statusFilter, t.sortKey, t.sortDirection)]
    ensures t.displayItems == FilteredItems(t.items, second, t.statusFilter, t.sortKey, t.sortDirection)
    ensures t.View() == Render(false, t.displayItems)
  {
    t.SetFilter(first);
    t.SetFilter(second);
    t.Fire();
  }

  /** A new `items` prop followed by the timer commits the view of the new prop, under the view
      state the table already had. */
  method NewItemsThenWait(t: InventoryTable, newItems: seq<Item>)
    requires t.Valid() && t.mounted
    modifies t
    ensures t.Valid() && t.mounted && !t.isLoading && t.items == newItems
    ensures t.commits == old(t.commits) + [FilteredItems(newItems, old(t.filter), old(t.statusFilter), old(t.sortKey), old(t.sortDirection))]
    ensures t.displayItems == FilteredItems(newItems, old(t.filter), old(t.statusFilter), old(t.sortKey), old(t.sortDirection))
  {
    t.SetItems(newItems);
    t.Fire();
  }

  /** Mounting a table over the three sample records, choosing "Active", clicking the id header
      once (from the initial id ascending) and letting the timer go off shows ids 3 and 1. */
  method ActiveByIdDescendingScenario(stamp: string) returns (t: InventoryTable)
    ensures t.Valid() && t.mounted && !t.isLoading
    ensures t.displayItems == [Item(3, "Item 3", "Asset", Active, stamp), Item(1, "Item 1", "Asset", Active, stamp)]
    ensures t.View() == List(2, EstimateSize)
  {
    var a := Item(1, "Item 1", "Asset", Active, stamp);
    var b := Item(2, "Item 2", "Certificate", Inactive, stamp);
    var c := Item(3, "Item 3", "Asset", Active, stamp);
    t := new InventoryTable([a, b, c]);
    t.RunEffect();
    t.SetStatusFilter("Active");
    t.HandleSort(ById);
    t.Fire();
    ActiveByIdDescending(stamp);
  }
}
