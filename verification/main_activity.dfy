/**
  The main screen's list logic: sorting the working list by the menu's
  criteria, the search filter over names and codes, the file name given to
  an imported list, clearing the list and loading a saved one.
 */
module MainActivity {
  import opened Wrappers
  import opened Inventory
  import Text
  import Calendar
  import Sequences
  import Sorting
  import MyApplication
  import ListFileManager

  // ---------------------------------------------------------------------------
  // Sorting

  /** The item property a sort compares. */
  datatype SortKey = ByName | ByExpDate | ByQuantity | ById

  /** A sort: the key, ascending (`sortedBy`) or descending (`sortedByDescending`). */
  datatype Ordering = Ordering(key: SortKey, descending: bool)

  /** The sort a menu entry asks for; any other text leaves the list alone. */
  function Criterion(criteria: string): (r: Option<Ordering>)
    ensures r.Some? <==> criteria in {"A-Z", "Z-A", "Old-New", "New-Old", "Least-Most", "Most-Least", "Order Scanned"}
    ensures r.Some? && r.value.descending <==> criteria in {"Z-A", "New-Old", "Most-Least"}
  {
    if criteria == "A-Z" then Some(Ordering(ByName, false))
    else if criteria == "Z-A" then Some(Ordering(ByName, true))
    else if criteria == "Old-New" then Some(Ordering(ByExpDate, false))
    else if criteria == "New-Old" then Some(Ordering(ByExpDate, true))
    else if criteria == "Least-Most" then Some(Ordering(ByQuantity, false))
    else if criteria == "Most-Least" then Some(Ordering(ByQuantity, true))
    else if criteria == "Order Scanned" then Some(Ordering(ById, false))
    else None
  }

  /** `a` sorts no later than `b` by the key alone; names compare as `String.compareTo`. */
  predicate KeyLe(key: SortKey, a: InventoryItem, b: InventoryItem) {
    match key
    case ByName => Text.LexLe(a.name, b.name)
    case ByExpDate => a.expDate <= b.expDate
    case ByQuantity => a.quantity <= b.quantity
    case ById => a.id <= b.id
  }

  /** The two items have the same key. */
  predicate SameKey(key: SortKey, a: InventoryItem, b: InventoryItem) {
    match key
    case ByName => a.name == b.name
    case ByExpDate => a.expDate == b.expDate
    case ByQuantity => a.quantity == b.quantity
    case ById => a.id == b.id
  }

  predicate ItemLe(o: Ordering, a: InventoryItem, b: InventoryItem) {
    if o.descending then KeyLe(o.key, b, a) else KeyLe(o.key, a, b)
  }

  /** The comparison handed to the stable sort. */
  function Comparator(o: Ordering): (InventoryItem, InventoryItem) -> bool {
    (a: InventoryItem, b: InventoryItem) => ItemLe(o, a, b)
  }

  lemma ComparatorIsPreorder(o: Ordering)
    ensures Sorting.TotalPreorder(Comparator(o))
  {
    var le := Comparator(o);
    forall a: InventoryItem, b: InventoryItem ensures le(a, b) || le(b, a) {
      if o.key.ByName? {
        Text.LexLeTotal(a.name, b.name);
      }
    }
    forall a: InventoryItem, b: InventoryItem, c: InventoryItem | le(a, b) && le(b, c) ensures le(a, c) {
      if o.key.ByName? {
        if o.descending {
          Text.LexLeTransitive(c.name, b.name, a.name);
        } else {
          Text.LexLeTransitive(a.name, b.name, c.name);
        }
      }
    }
  }

  /** Items compare equal under an ordering exactly when their keys are equal. */
  lemma TiedIffSameKey(o: Ordering, a: InventoryItem, b: InventoryItem)
    ensures Sorting.Tied(Comparator(o), a, b) <==> SameKey(o.key, a, b)
  {
    assert Sorting.Tied(Comparator(o), a, b) <==> ItemLe(o, a, b) && ItemLe(o, b, a);
    if o.key.ByName? {
      if Text.LexLe(a.name, b.name) && Text.LexLe(b.name, a.name) {
        Text.LexLeAntisymmetric(a.name, b.name);
      }
      Text.LexLeTotal(a.name, b.name);
    }
  }

  /**
    `sortItems`: the working list reordered by the criterion, a permutation
    of it in which every item sorts no later than the ones after it; an
    unknown criterion leaves it as it was.
   */
  function SortItems(items: seq<InventoryItem>, criteria: string): (r: seq<InventoryItem>)
    ensures multiset(r) == multiset(items)
    ensures Criterion(criteria).None? ==> r == items
    ensures Criterion(criteria).Some? ==> Sorting.Sorted(r, Comparator(Criterion(criteria).value))
  {
    match Criterion(criteria)
    case None => items
    case Some(o) =>
      ComparatorIsPreorder(o);
      Sorting.SortSorted(items, Comparator(o));
      Sorting.Sort(items, Comparator(o))
  }

  /**
    The sort is stable: the items sharing any one key value appear in the
    result in the order they had before.
   */
  lemma SortItemsStable(items: seq<InventoryItem>, criteria: string, k: InventoryItem)
    requires Criterion(criteria).Some?
    ensures var key := Criterion(criteria).value.key;
      Sequences.Filter(SortItems(items, criteria), SameKeyAs(key, k)) == Sequences.Filter(items, SameKeyAs(key, k))
  {
    var o := Criterion(criteria).value;
    var le := Comparator(o);
    ComparatorIsPreorder(o);
    Sorting.SortStable(items, le, k);
    forall e: InventoryItem ensures Sorting.TiedWith(le, k)(e) == SameKeyAs(o.key, k)(e) {
      TiedIffSameKey(o, e, k);
    }
    FilterSameTest(SortItems(items, criteria), Sorting.TiedWith(le, k), SameKeyAs(o.key, k));
    FilterSameTest(items, Sorting.TiedWith(le, k), SameKeyAs(o.key, k));
  }

  function SameKeyAs(key: SortKey, k: InventoryItem): InventoryItem -> bool {
    (e: InventoryItem) => SameKey(key, e, k)
  }

  /** Filtering by two tests that agree everywhere gives the same sequence. */
  lemma {:induction false} FilterSameTest(s: seq<InventoryItem>, p: InventoryItem -> bool, q: InventoryItem -> bool)
    requires forall e: InventoryItem :: p(e) == q(e)
    ensures Sequences.Filter(s, p) == Sequences.Filter(s, q)
  {
    if s != [] {
      FilterSameTest(s[..|s| - 1], p, q);
    }
  }

  /** Sorting an already sorted list by the same criterion changes nothing. */
  lemma SortItemsIdempotent(items: seq<InventoryItem>, criteria: string)
    ensures SortItems(SortItems(items, criteria), criteria) == SortItems(items, criteria)
  {
    var r := SortItems(items, criteria);
    if Criterion(criteria).Some? {
      Sorting.SortOfSorted(r, Comparator(Criterion(criteria).value));
    }
  }

  /** Sorting the working list keeps every id below the counter. */
  lemma SortKeepsCounterAhead(app: MyApplication.App, criteria: string)
    requires MyApplication.IdsBelowCounter(app)
    ensures MyApplication.IdsBelowCounter(app.(items := SortItems(app.items, criteria)))
  {
    var r := SortItems(app.items, criteria);
    forall i | 0 <= i < |r| ensures r[i].id < app.nextID {
      assert r[i] in multiset(app.items);
    }
  }

  // ---------------------------------------------------------------------------
  // Search

  /** The item's name or code contains the (already lower-cased) query, ignoring case. */
  function Matches(query: string): InventoryItem -> bool {
    (item: InventoryItem) =>
      Text.Contains(Text.Lower(item.name), query) || Text.Contains(Text.Lower(item.code), query)
  }

  /**
    `filteredItems`: a blank search shows the whole list; otherwise exactly
    the items whose name or code contains the search text, ignoring case,
    in list order.
   */
  function FilterItems(items: seq<InventoryItem>, searchText: string): (r: seq<InventoryItem>)
    ensures Text.IsBlank(searchText) ==> r == items
    ensures forall e :: e in r <==> e in items && (Text.IsBlank(searchText) || Matches(Text.Lower(searchText))(e))
    ensures multiset(r) <= multiset(items)
  {
    if Text.IsBlank(searchText) then items
    else
      Sequences.FilterMembers(items, Matches(Text.Lower(searchText)));
      Sequences.Filter(items, Matches(Text.Lower(searchText)))
  }

  /** The search works piecewise: it keeps the relative order of the items it shows. */
  lemma FilterItemsAppend(a: seq<InventoryItem>, b: seq<InventoryItem>, searchText: string)
    ensures FilterItems(a + b, searchText) == FilterItems(a, searchText) + FilterItems(b, searchText)
  {
    if !Text.IsBlank(searchText) {
      Sequences.FilterAppend(a, b, Matches(Text.Lower(searchText)));
    }
  }

  /** Searching the results of a search again shows the same items. */
  lemma FilterItemsIdempotent(items: seq<InventoryItem>, searchText: string)
    ensures FilterItems(FilterItems(items, searchText), searchText) == FilterItems(items, searchText)
  {
    if !Text.IsBlank(searchText) {
      var p := Matches(Text.Lower(searchText));
      Sequences.FilterMembers(items, p);
      Sequences.FilterAll(Sequences.Filter(items, p), p);
    }
  }

  /** Upper- and lower-case search texts show the same items. */
  lemma FilterItemsIgnoresCase(items: seq<InventoryItem>, searchText: string)
    ensures FilterItems(items, Text.Lower(searchText)) == FilterItems(items, searchText)
  {
    var lower := Text.Lower(searchText);
    assert Text.IsBlank(lower) <==> Text.IsBlank(searchText) by {
      assert forall i :: 0 <= i < |searchText| ==> (Text.IsWhitespace(lower[i]) <==> Text.IsWhitespace(searchText[i]));
    }
    Text.LowerIdempotent(searchText);
  }

  /** An item whose name is the search text, in any case, is among the results. */
  lemma NameSearchFindsItem(items: seq<InventoryItem>, item: InventoryItem, searchText: string)
    requires item in items
    requires Text.EqualsIgnoreCase(item.name, searchText)
    ensures item in FilterItems(items, searchText)
  {
    var q := Text.Lower(searchText);
    assert Text.Lower(item.name)[0..|q|] == q;
    assert Text.OccursAt(Text.Lower(item.name), q, 0);
  }

  /** Sorting does not change which items a search shows, only their order. */
  lemma SortThenFilterSameItems(items: seq<InventoryItem>, criteria: string, searchText: string)
    ensures multiset(FilterItems(SortItems(items, criteria), searchText)) == multiset(FilterItems(items, searchText))
  {
    if !Text.IsBlank(searchText) {
      FilterPermutation(SortItems(items, criteria), items, Matches(Text.Lower(searchText)));
    }
  }

  /** Filtering two permutations of each other gives permutations of each other. */
  lemma {:induction false} FilterPermutation(a: seq<InventoryItem>, b: seq<InventoryItem>, p: InventoryItem -> bool)
    requires multiset(a) == multiset(b)
    ensures multiset(Sequences.Filter(a, p)) == multiset(Sequences.Filter(b, p))
    decreases |a|
  {
    if a != [] {
      var init, x := a[..|a| - 1], a[|a| - 1];
      assert a == init + [x];
      assert x in multiset(b);
      var i :| 0 <= i < |b| && b[i] == x;
      var rest := b[..i] + b[i + 1..];
      assert multiset(init) == multiset(rest) by {
        RemoveAtMultiset(b, i);
        assert multiset(a) == multiset(init) + multiset{x};
      }
      FilterPermutation(init, rest, p);
      assert multiset(Sequences.Filter(a, p)) == multiset(Sequences.Filter(init, p)) + multiset(Sequences.Filter([x], p)) by {
        Sequences.FilterAppend(init, [x], p);
      }
      assert b == b[..i] + [x] + b[i + 1..] by {
        RemoveAtMultiset(b, i);
      }
      FilterRemoveAt(b[..i], x, b[i + 1..], p);
    }
  }

  lemma RemoveAtMultiset(b: seq<InventoryItem>, i: int)
    requires 0 <= i < |b|
    ensures b == b[..i] + [b[i]] + b[i + 1..]
    ensures multiset(b[..i] + b[i + 1..]) == multiset(b) - multiset{b[i]}
  {
    assert b == b[..i] + [b[i]] + b[i + 1..];
  }

  /** Filtering a list is filtering it without one element, plus filtering that element. */
  lemma FilterRemoveAt(l: seq<InventoryItem>, x: InventoryItem, r: seq<InventoryItem>, p: InventoryItem -> bool)
    ensures multiset(Sequences.Filter(l + [x] + r, p)) == multiset(Sequences.Filter(l + r, p)) + multiset(Sequences.Filter([x], p))
  {
    Sequences.FilterAppend(l + [x], r, p);
    Sequences.FilterAppend(l, [x], p);
    Sequences.FilterAppend(l, r, p);
  }

  // ---------------------------------------------------------------------------
  // Imported file names

  const ExtensionLength: nat := |ListFileManager.JsonSuffix|

  /** The name without a trailing ".json", matched in any case. */
  function StripJsonExtension(name: string): (r: string)
    ensures Text.EndsWithIgnoreCase(name, ListFileManager.JsonSuffix) ==> |r| + ExtensionLength == |name| && r + name[|r|..] == name
    ensures !Text.EndsWithIgnoreCase(name, ListFileManager.JsonSuffix) ==> r == name
  {
    if Text.EndsWithIgnoreCase(name, ListFileManager.JsonSuffix) then Text.DropLast(name, ExtensionLength) else name
  }

  /**
    `extractFilenameFromUri`: the display name when the provider reports
    one, otherwise the last path segment, otherwise "imported_list"; any
    ".json" ending is dropped.
   */
  function ExtractFilename(displayName: Option<string>, lastSegment: Option<string>): (r: string)
    ensures displayName.Some? ==> r == StripJsonExtension(displayName.value)
    ensures displayName.None? ==> r == StripJsonExtension(lastSegment.GetOr("imported_list"))
    ensures displayName.None? && lastSegment.None? ==> r == "imported_list"
  {
    match displayName
    case Some(name) => StripJsonExtension(name)
    case None =>
      assert !Text.EndsWithIgnoreCase("imported_list", ListFileManager.JsonSuffix) by {
        assert Text.Lower("imported_list"[8..])[0] == '_';
      }
      StripJsonExtension(lastSegment.GetOr("imported_list"))
  }

  /** Stripping undoes the file-name resolution of the list manager for a name without the extension. */
  lemma StripAfterListFileName(name: string)
    requires !Text.EndsWithIgnoreCase(name, ListFileManager.JsonSuffix)
    ensures StripJsonExtension(ListFileManager.ListFileName(name)) == name
  {
    var f := ListFileManager.ListFileName(name);
    assert f == name + ListFileManager.JsonSuffix;
    assert f[..|name|] == name;
  }

  /**
    A file "x.json" (lower case) whose stem does not itself end in the
    extension is saved back under the same file name once imported.
   */
  lemma ListFileNameAfterStrip(fileName: string)
    requires Text.EndsWith(fileName, ListFileManager.JsonSuffix)
    requires !Text.EndsWithIgnoreCase(StripJsonExtension(fileName), ListFileManager.JsonSuffix)
    ensures ListFileManager.ListFileName(StripJsonExtension(fileName)) == fileName
  {
    ListFileManager.EndsWithJsonSuffix(fileName);
    var n := |fileName|;
    var stem := StripJsonExtension(fileName);
    assert stem == fileName[..n - 5];
    assert ListFileManager.ListFileName(stem) == stem + ListFileManager.JsonSuffix;
    assert fileName == fileName[..n - 5] + fileName[n - 5..];
  }

  // ---------------------------------------------------------------------------
  // Clearing and loading

  /**
    The "Clear" dialog: confirming on a non-empty list empties it, and the
    "Nothing To Clear!" confirmation on an empty one leaves it empty; both
    reset the counter to 0.  The flags stay.
   */
  function ClearList(app: MyApplication.App): (r: MyApplication.App)
    ensures r.items == [] && r.nextID == 0
    ensures r.perishable == app.perishable && r.perishablePreference == app.perishablePreference
  {
    if app.items != [] then app.(items := [], nextID := 0)
    else app.(nextID := 0)
  }

  /** After clearing, the application's counter hands out 1 first, and the next item added gets a fresh id. */
  lemma ClearThenDraw(app: MyApplication.App)
    ensures MyApplication.IdsBelowCounter(ClearList(app))
    ensures MyApplication.GetNextID(ClearList(app)).1 == 1
  {
  }

  /**
    Loading a saved list from the main screen: a list that could not be read
    changes nothing; otherwise its items and flag replace the working ones
    and the counter becomes the least value that is at least the old one
    and above every id.  Unlike `loadList` on the application object, the
    persisted preference is not written.
   */
  function LoadFromScreen(app: MyApplication.App, loaded: Option<InventoryList>): (r: MyApplication.App)
    ensures loaded.None? ==> r == app
    ensures loaded.Some? ==> r.items == loaded.value.items && r.perishable == loaded.value.perishable
    ensures loaded.Some? ==> r.nextID >= app.nextID && MyApplication.IdsBelowCounter(r)
    ensures loaded.Some? ==> r.nextID > MyApplication.MaxId(loaded.value.items)
    ensures loaded.Some? ==> r.nextID == app.nextID || r.nextID == MyApplication.MaxId(loaded.value.items) + 1
    ensures r.perishablePreference == app.perishablePreference
  {
    match loaded
    case None => app
    case Some(list) =>
      MyApplication.SetNextID(app.(items := list.items, perishable := list.perishable), MyApplication.MaxId(list.items))
  }

  /** The screen's load agrees with the application's `loadList` in everything but the persisted preference. */
  lemma LoadFromScreenIsLoadList(app: MyApplication.App, list: InventoryList)
    ensures LoadFromScreen(app, Some(list)) == MyApplication.LoadList(app, list).(perishablePreference := app.perishablePreference)
  {
  }

  /** Saving the working list and loading it back by the same name restores its items and flag. */
  lemma SaveThenLoadFromScreen(sys: MyApplication.System, listName: string, clock: Calendar.Clock, later: MyApplication.App)
    requires ListFileManager.Writable(MyApplication.Entries(sys.folder), listName)
    ensures var saved := MyApplication.SaveWorkingList(sys, listName, clock);
      var r := LoadFromScreen(later, ListFileManager.LoadList(MyApplication.Entries(saved.folder), listName));
      r.items == sys.app.items && r.perishable == sys.app.perishable
  {
    MyApplication.SaveWorkingListStores(sys, listName, clock);
  }
}
