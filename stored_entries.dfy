/** The stored-entries screen: the fetched entries, sorted by timestamp into a
    view that is rebuilt whenever the entries or the chosen order change. */
module StoredEntries {
  import opened Records
  import opened Database

  /** The two orders the filter bar offers. */
  datatype FilterOption = Latest | Oldest

  /** The comparator as a key: the sort puts smaller keys first, so "latest"
      (`b - a`) sorts on the negated timestamp and "oldest" (`a - b`) on the
      timestamp itself. */
  function Key(e: Row, option: FilterOption): int
  {
    match option
    case Latest => -e.cols.timeStamp
    case Oldest => e.cols.timeStamp
  }

  /** The comparator `filterEntries` passes to `sort`: `b - a` on the
      timestamps for "latest", `a - b` for "oldest". */
  function Comparator(a: Row, b: Row, option: FilterOption): int
  {
    match option
    case Latest => b.cols.timeStamp - a.cols.timeStamp
    case Oldest => a.cols.timeStamp - b.cols.timeStamp
  }

  /** Comparing keys is comparing with the source's comparator: `a` sorts
      before `b` exactly when the comparator is negative, and they tie
      exactly when it is zero. */
  lemma KeyMatchesComparator(a: Row, b: Row, option: FilterOption)
    ensures Comparator(a, b, option) == Key(a, option) - Key(b, option)
    ensures Comparator(a, b, option) < 0 <==> Key(a, option) < Key(b, option)
    ensures Comparator(a, b, option) == 0 <==> a.cols.timeStamp == b.cols.timeStamp
  {
  }

  /** Every entry's key is at most the key of every later entry. */
  ghost predicate Ordered(s: seq<Row>, option: FilterOption)
  {
    forall i, j :: 0 <= i < j < |s| ==> Key(s[i], option) <= Key(s[j], option)
  }

  /** `[e]` when `e` is stamped `t`, else nothing. */
  function Tag(e: Row, t: int): seq<Row>
  {
    if e.cols.timeStamp == t then [e] else []
  }

  /** The entries of `s` stamped `t`, in their order in `s`. */
  function WithStamp(s: seq<Row>, t: int): seq<Row>
  {
    if s == [] then [] else WithStamp(s[..|s| - 1], t) + Tag(s[|s| - 1], t)
  }

  /** `x` placed into `s` behind every entry whose key is not larger, as one
      step of a stable insertion sort moves it. */
  function Insert(s: seq<Row>, x: Row, option: FilterOption): seq<Row>
    decreases |s|
  {
    if s == [] || Key(s[|s| - 1], option) <= Key(x, option) then s + [x]
    else Insert(s[..|s| - 1], x, option) + [s[|s| - 1]]
  }

  /** The reference order of the view: a stable sort of `s` on the key. */
  function SortedView(s: seq<Row>, option: FilterOption): seq<Row>
  {
    if s == [] then [] else Insert(SortedView(s[..|s| - 1], option), s[|s| - 1], option)
  }

  lemma {:induction false} InsertPermutes(s: seq<Row>, x: Row, option: FilterOption)
    ensures multiset(Insert(s, x, option)) == multiset(s) + multiset{x}
    decreases |s|
  {
    if s != [] && Key(s[|s| - 1], option) > Key(x, option) {
      var init := s[..|s| - 1];
      InsertPermutes(init, x, option);
      assert s == init + [s[|s| - 1]];
    }
  }

  /** Inserting below a bound keeps every key below it. */
  lemma {:induction false} InsertKeepsBound(s: seq<Row>, x: Row, option: FilterOption, bound: int)
    requires forall i :: 0 <= i < |s| ==> Key(s[i], option) <= bound
    requires Key(x, option) <= bound
    ensures forall i :: 0 <= i < |Insert(s, x, option)| ==> Key(Insert(s, x, option)[i], option) <= bound
    decreases |s|
  {
    if s != [] && Key(s[|s| - 1], option) > Key(x, option) {
      InsertKeepsBound(s[..|s| - 1], x, option, bound);
    }
  }

  /** An ordered sequence stays ordered when an entry with a key at least
      as large as all of its keys is appended. */
  lemma OrderedSnoc(s: seq<Row>, e: Row, option: FilterOption)
    requires Ordered(s, option)
    requires forall i :: 0 <= i < |s| ==> Key(s[i], option) <= Key(e, option)
    ensures Ordered(s + [e], option)
  {
  }

  lemma {:induction false} InsertKeepsOrder(s: seq<Row>, x: Row, option: FilterOption)
    requires Ordered(s, option)
    ensures Ordered(Insert(s, x, option), option)
    decreases |s|
  {
    if s == [] || Key(s[|s| - 1], option) <= Key(x, option) {
      OrderedSnoc(s, x, option);
    } else {
      var init, last := s[..|s| - 1], s[|s| - 1];
      assert Ordered(init, option);
      InsertKeepsOrder(init, x, option);
      InsertKeepsBound(init, x, option, Key(last, option));
      OrderedSnoc(Insert(init, x, option), last, option);
    }
  }

  /** Entries in key order with different keys cannot share a timestamp,
      so their tags may be swapped. */
  lemma TagsCommute(x: Row, y: Row, option: FilterOption, t: int)
    requires Key(x, option) < Key(y, option)
    ensures Tag(x, t) + Tag(y, t) == Tag(y, t) + Tag(x, t)
  {
    assert x.cols.timeStamp != y.cols.timeStamp;
  }

  /** `WithStamp` of a sequence ending in `e`. */
  lemma WithStampSnoc(s: seq<Row>, e: Row, t: int)
    ensures WithStamp(s + [e], t) == WithStamp(s, t) + Tag(e, t)
  {
    assert (s + [e])[..|s|] == s;
  }

  /** Inserting `x` keeps the entries that share a timestamp in their order,
      with `x` behind them: `x` only moves past entries whose key is larger,
      and those carry a different timestamp. */
  lemma {:induction false} InsertIsStable(s: seq<Row>, x: Row, option: FilterOption, t: int)
    ensures WithStamp(Insert(s, x, option), t) == WithStamp(s, t) + Tag(x, t)
    decreases |s|
  {
    if s == [] || Key(s[|s| - 1], option) <= Key(x, option) {
      WithStampSnoc(s, x, t);
    } else {
      var init, last := s[..|s| - 1], s[|s| - 1];
      var r := Insert(init, x, option);
      assert Insert(s, x, option) == r + [last];
      InsertIsStable(init, x, option, t);
      WithStampSnoc(r, last, t);
      TagsCommute(x, last, option, t);
      calc {
        WithStamp(r + [last], t);
        WithStamp(init, t) + Tag(x, t) + Tag(last, t);
        WithStamp(init, t) + (Tag(x, t) + Tag(last, t));
        WithStamp(init, t) + (Tag(last, t) + Tag(x, t));
        WithStamp(init, t) + Tag(last, t) + Tag(x, t);
        WithStamp(s, t) + Tag(x, t);
      }
    }
  }

  /** The view holds exactly the entries it was built from. */
  lemma {:induction false} SortedViewPermutes(s: seq<Row>, option: FilterOption)
    ensures multiset(SortedView(s, option)) == multiset(s)
    ensures |SortedView(s, option)| == |s|
    decreases |s|
  {
    if s != [] {
      var init := s[..|s| - 1];
      SortedViewPermutes(init, option);
      InsertPermutes(SortedView(init, option), s[|s| - 1], option);
      assert s == init + [s[|s| - 1]];
    }
    assert |multiset(SortedView(s, option))| == |SortedView(s, option)|;
  }

  /** The view is ordered by the chosen key. */
  lemma {:induction false} SortedViewOrdered(s: seq<Row>, option: FilterOption)
    ensures Ordered(SortedView(s, option), option)
    decreases |s|
  {
    if s != [] {
      SortedViewOrdered(s[..|s| - 1], option);
      InsertKeepsOrder(SortedView(s[..|s| - 1], option), s[|s| - 1], option);
    }
  }

  /** The sort is stable: the entries sharing any one timestamp keep their
      input order. */
  lemma {:induction false} SortedViewStable(s: seq<Row>, option: FilterOption, t: int)
    ensures WithStamp(SortedView(s, option), t) == WithStamp(s, t)
    decreases |s|
  {
    if s != [] {
      var init, last := s[..|s| - 1], s[|s| - 1];
      assert SortedView(s, option) == Insert(SortedView(init, option), last, option);
      assert WithStamp(s, t) == WithStamp(init, t) + Tag(last, t);
      SortedViewStable(init, option, t);
      InsertIsStable(SortedView(init, option), last, option, t);
    }
  }

  /** In key order, "latest" means timestamps never increase along the
      sequence and "oldest" means they never decrease. */
  lemma OrderedByTimestamp(s: seq<Row>, option: FilterOption)
    requires Ordered(s, option)
    ensures option == Latest ==>
      forall i, j :: 0 <= i < j < |s| ==> s[i].cols.timeStamp >= s[j].cols.timeStamp
    ensures option == Oldest ==>
      forall i, j :: 0 <= i < j < |s| ==> s[i].cols.timeStamp <= s[j].cols.timeStamp
  {
    forall i, j | 0 <= i < j < |s|
      ensures Key(s[i], option) <= Key(s[j], option)
    {
    }
  }

  /** The view of one more entry is the previous view with that entry inserted. */
  lemma SortedViewStep(data: seq<Row>, i: nat, option: FilterOption)
    requires i < |data|
    ensures SortedView(data[..i + 1], option) == Insert(SortedView(data[..i], option), data[i], option)
  {
    assert data[..i + 1][..i] == data[..i];
  }

  /** What the view promises, in the screen's terms: the same entries, by
      timestamp in the chosen direction, ties in their fetched order. */
  lemma SortedViewSpec(s: seq<Row>, option: FilterOption)
    ensures multiset(SortedView(s, option)) == multiset(s) && |SortedView(s, option)| == |s|
    ensures option == Latest ==> forall i, j :: 0 <= i < j < |SortedView(s, option)| ==>
      SortedView(s, option)[i].cols.timeStamp >= SortedView(s, option)[j].cols.timeStamp
    ensures option == Oldest ==> forall i, j :: 0 <= i < j < |SortedView(s, option)| ==>
      SortedView(s, option)[i].cols.timeStamp <= SortedView(s, option)[j].cols.timeStamp
    ensures forall t :: WithStamp(SortedView(s, option), t) == WithStamp(s, t)
  {
    SortedViewPermutes(s, option);
    SortedViewOrdered(s, option);
    OrderedByTimestamp(SortedView(s, option), option);
    forall t ensures WithStamp(SortedView(s, option), t) == WithStamp(s, t) {
      SortedViewStable(s, option, t);
    }
  }

  /** Moving `x` in front of a run of entries that must follow it. */
  lemma {:induction false} InsertBeforeLarger(p: seq<Row>, x: Row, j: nat, option: FilterOption)
    requires j <= |p|
    requires forall k :: j <= k < |p| ==> Key(p[k], option) > Key(x, option)
    ensures Insert(p, x, option) == Insert(p[..j], x, option) + p[j..]
    decreases |p| - j
  {
    if j == |p| {
      assert p[..j] == p && p[j..] == [];
    } else {
      var init, last := p[..|p| - 1], p[|p| - 1];
      assert Key(last, option) > Key(x, option);
      assert Insert(p, x, option) == Insert(init, x, option) + [last];
      InsertBeforeLarger(init, x, j, option);
      assert init[..j] == p[..j];
      assert p[j..] == init[j..] + [last];
    }
  }

  /** The array contents one pass of the insertion sort leaves: the prefix
      of `p` up to `j`, then `x`, then the rest of `p` moved one place right. */
  lemma ShiftedIsInsert(q: seq<Row>, p: seq<Row>, x: Row, j: nat, option: FilterOption)
    requires j <= |p| && |q| == |p| + 1
    requires forall k :: 0 <= k < j ==> q[k] == p[k]
    requires q[j] == x
    requires forall k :: j < k <= |p| ==> q[k] == p[k - 1]
    requires j == 0 || Key(p[j - 1], option) <= Key(x, option)
    requires forall k :: j <= k < |p| ==> Key(p[k], option) > Key(x, option)
    ensures q == Insert(p, x, option)
  {
    InsertBeforeLarger(p, x, j, option);
    assert j > 0 ==> p[..j][j - 1] == p[j - 1];
    assert Insert(p[..j], x, option) == p[..j] + [x];
    assert q == p[..j] + [x] + p[j..];
  }

  /** One pass of the insertion sort: moves `a[i]` left past every larger
      entry of the sorted prefix `a[..i]`, shifting them one place right. */
  method InsertInPlace(a: array<Row>, i: int, option: FilterOption)
    requires 0 <= i < a.Length
    modifies a
    ensures a[..i + 1] == Insert(old(a[..i]), old(a[i]), option)
    ensures a[i + 1..] == old(a[i + 1..])
  {
    var x := a[i];
    ghost var p := a[..i];
    var j := i;
    while j > 0 && Key(a[j - 1], option) > Key(x, option)
      invariant 0 <= j <= i
      invariant forall k :: 0 <= k < j ==> a[k] == p[k]
      invariant forall k :: j < k <= i ==> a[k] == p[k - 1]
      invariant forall k :: j <= k < i ==> Key(p[k], option) > Key(x, option)
      invariant forall k :: i < k < a.Length ==> a[k] == old(a[k])
    {
      a[j] := a[j - 1];
      j := j - 1;
    }
    a[j] := x;
    ShiftedIsInsert(a[..i + 1], p, x, j, option);
    assert a[i + 1..] == old(a[i + 1..]);
  }

  /** `filterEntries`: copies the entries, sorts the copy in place and
      returns it as the new view; `SortedViewSpec` states what that view is. */
  method FilterEntries(data: seq<Row>, option: FilterOption) returns (sorted: seq<Row>)
    ensures sorted == SortedView(data, option)
  {
    var a := new Row[|data|](k requires 0 <= k < |data| => data[k]);
    var i := 0;
    while i < a.Length
      invariant 0 <= i <= a.Length
      invariant a[..i] == SortedView(data[..i], option)
      invariant a[i..] == data[i..]
    {
      ghost var before := a[..];
      assert before[i + 1..] == a[i..][1..] == data[i..][1..] == data[i + 1..];
      InsertInPlace(a, i, option);
      SortedViewStep(data, i, option);
      assert a[i + 1..] == before[i + 1..];
      i := i + 1;
    }
    sorted := a[..];
    assert a[..] == a[..a.Length] && data[..a.Length] == data;
  }

  /** The stored-entries screen's state over the shared store. */
  class Screen {
    var entries: seq<Row>
    var filteredEntries: seq<Row>
    var filterOption: FilterOption
    const store: ScanStore

    /** The view is always the sorted entries: the effect on
        `[filterOption, entries]` rebuilds it after every change of either. */
    ghost predicate Valid()
      reads this, store
    {
      store.Valid() && filteredEntries == SortedView(entries, filterOption)
    }

    constructor (store: ScanStore)
      requires store.Valid()
      ensures Valid() && this.store == store
      ensures entries == [] && filteredEntries == [] && filterOption == Latest
    {
      this.store := store;
      entries := [];
      filteredEntries := [];
      filterOption := Latest;
    }

    /** `loadEntries`, run whenever the screen gains focus: replaces the entries
        with the fetched rows (a rejected fetch keeps them) and rebuilds the view. */
    method LoadEntries()
      requires Valid()
      modifies this`entries, this`filteredEntries
      ensures Valid()
      ensures store.tableExists ==> Lists(entries, store.rows)
      ensures !store.tableExists ==> entries == old(entries)
    {
      var r, data := store.FetchData();
      if r.Ok? {
        entries := data;
      }
      filteredEntries := FilterEntries(entries, filterOption);
    }

    /** Pressing "Latest" or "Oldest": the entries stay, the view is re-sorted. */
    method SetFilterOption(option: FilterOption)
      requires Valid()
      modifies this`filterOption, this`filteredEntries
      ensures Valid()
      ensures filterOption == option && entries == old(entries)
    {
      filterOption := option;
      filteredEntries := FilterEntries(entries, filterOption);
    }

    /** `handleDelete`: deletes the row only when the user confirms, then
        reloads the entries (and so the view). */
    method HandleDelete(id: int, confirmed: bool)
      requires Valid()
      modifies this, store
      ensures Valid()
      ensures filterOption == old(filterOption)
      ensures store.tableExists == old(store.tableExists) && store.lastId == old(store.lastId)
      ensures !confirmed ==> store.rows == old(store.rows) && entries == old(entries)
      ensures confirmed ==> store.rows == (if old(store.tableExists) then old(store.rows) - {id} else old(store.rows))
      ensures confirmed && store.tableExists ==> Lists(entries, store.rows)
      ensures !store.tableExists ==> entries == old(entries)
      ensures store.issued == old(store.issued)
    {
      if confirmed {
        var r := store.DeleteData(id);
        if r.Ok? {
          LoadEntries();
        }
      }
    }

    /** Whether the screen shows "No stored entries found.": exactly when
        there are no entries. */
    function ShowsNoEntries(): (empty: bool)
      reads this, store
      requires Valid()
      ensures empty <==> entries == []
    {
      SortedViewPermutes(entries, filterOption);
      |filteredEntries| == 0
    }
  }
}
