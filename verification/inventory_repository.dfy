/**
  The repository behind the edit screen: add, update and delete items of
  the working list by id, the post-increment id counter, and the
  snapshot of the working state kept in "current_inventory.json".
 */
module InventoryRepository {
  import opened Wrappers
  import opened Inventory
  import opened Platform
  import Sequences
  import MyApplication

  const InventoryFileName: string := "current_inventory.json"

  /** The snapshot written by `saveInventory`. */
  datatype InventoryState = InventoryState(items: seq<InventoryItem>, nextID: int, currentListName: string)

  /** What reading the snapshot file yields: nothing there, text that does not decode, or a snapshot. */
  datatype FileContent = Missing | Corrupt | Stored(state: InventoryState)

  /** The application state the repository edits, and the snapshot file. */
  datatype Repo = Repo(app: MyApplication.App, file: FileContent)

  /** `saveInventory`: the snapshot of the current items and counter, named after the file. */
  function SaveInventory(repo: Repo): (r: Repo)
    ensures r.app == repo.app
    ensures r.file.Stored? && r.file.state.items == repo.app.items && r.file.state.nextID == repo.app.nextID
  {
    repo.(file := Stored(InventoryState(repo.app.items, repo.app.nextID, InventoryFileName)))
  }

  predicate HasItemId(items: seq<InventoryItem>, id: int) {
    exists i :: 0 <= i < |items| && items[i].id == id
  }

  /** `addItem`: appends the item unless its id is taken, then saves either way. */
  function AddItem(repo: Repo, item: InventoryItem): (r: Repo)
    ensures HasItemId(repo.app.items, item.id) ==> r.app.items == repo.app.items
    ensures !HasItemId(repo.app.items, item.id) ==> r.app.items == repo.app.items + [item]
    ensures r.app == repo.app.(items := r.app.items)
    ensures r.file == SaveInventory(r).file
  {
    var items := if MyApplication.GetInventoryItemById(repo.app, item.id).Some? then repo.app.items
                 else repo.app.items + [item];
    SaveInventory(repo.(app := repo.app.(items := items)))
  }

  /** No two items share an id. */
  ghost predicate UniqueIds(items: seq<InventoryItem>) {
    forall i, j :: 0 <= i < j < |items| ==> items[i].id != items[j].id
  }

  /** Adding never introduces a second item with the same id. */
  lemma AddItemKeepsIdsUnique(repo: Repo, item: InventoryItem)
    requires UniqueIds(repo.app.items)
    ensures UniqueIds(AddItem(repo, item).app.items)
  {
    var items := repo.app.items;
    if !HasItemId(items, item.id) {
      var r := items + [item];
      forall i, j | 0 <= i < j < |r| ensures r[i].id != r[j].id {
        if j == |items| {
          assert r[i] == items[i];
        }
      }
    }
  }

  /**
    `updateItem`: replaces the first item with the same id and saves;
    without such an item nothing happens, not even a save.
   */
  function UpdateItem(repo: Repo, updated: InventoryItem): (r: Repo)
    ensures !HasItemId(repo.app.items, updated.id) ==> r == repo
    ensures HasItemId(repo.app.items, updated.id) ==>
      exists k :: 0 <= k < |repo.app.items| && repo.app.items[k].id == updated.id
        && (forall j :: 0 <= j < k ==> repo.app.items[j].id != updated.id)
        && r.app.items == repo.app.items[k := updated]
        && r == SaveInventory(r)
    ensures r.app == repo.app.(items := r.app.items)
  {
    var k := Sequences.FirstIndex(repo.app.items, MyApplication.HasId(updated.id));
    if k == -1 then repo
    else SaveInventory(repo.(app := repo.app.(items := repo.app.items[k := updated])))
  }

  /** Two lists whose items agree on carrying `id` find it at the same place. */
  lemma FirstIndexSameIds(a: seq<InventoryItem>, b: seq<InventoryItem>, id: int)
    requires |a| == |b|
    requires forall k :: 0 <= k < |a| ==> (a[k].id == id <==> b[k].id == id)
    ensures Sequences.FirstIndex(a, MyApplication.HasId(id)) == Sequences.FirstIndex(b, MyApplication.HasId(id))
  {
  }

  /** After an update, looking its id up finds the updated item. */
  lemma UpdateThenGet(repo: Repo, updated: InventoryItem)
    requires HasItemId(repo.app.items, updated.id)
    ensures MyApplication.GetInventoryItemById(UpdateItem(repo, updated).app, updated.id) == Some(updated)
  {
    var items := repo.app.items;
    var k := Sequences.FirstIndex(items, MyApplication.HasId(updated.id));
    var r := UpdateItem(repo, updated).app.items;
    assert r == items[k := updated];
    FirstIndexSameIds(items, r, updated.id);
  }

  /** An update leaves the lookup of every other id as it was. */
  lemma UpdateKeepsOtherLookups(repo: Repo, updated: InventoryItem, id: int)
    requires id != updated.id
    ensures MyApplication.GetInventoryItemById(UpdateItem(repo, updated).app, id) == MyApplication.GetInventoryItemById(repo.app, id)
  {
    var items := repo.app.items;
    var k := Sequences.FirstIndex(items, MyApplication.HasId(updated.id));
    var r := UpdateItem(repo, updated).app.items;
    if k >= 0 {
      assert r == items[k := updated];
      FirstIndexSameIds(items, r, id);
    }
  }

  function IsItem(item: InventoryItem): InventoryItem -> bool {
    (e: InventoryItem) => e == item
  }

  /** `deleteItem`: removes the first item equal to the argument in every field, then saves. */
  function DeleteItem(repo: Repo, item: InventoryItem): (r: Repo)
    ensures multiset(r.app.items) == multiset(repo.app.items) - multiset{item}
    ensures item in repo.app.items <==> |r.app.items| == |repo.app.items| - 1
    ensures item !in repo.app.items ==> r.app.items == repo.app.items
    ensures r.app == repo.app.(items := r.app.items)
    ensures r.file == SaveInventory(r).file
  {
    var items := repo.app.items;
    var k := Sequences.FirstIndex(items, IsItem(item));
    var rest := if k < 0 then items else items[..k] + items[k + 1..];
    RemoveFirstFacts(items, item, k);
    SaveInventory(repo.(app := repo.app.(items := rest)))
  }

  lemma RemoveFirstFacts(items: seq<InventoryItem>, item: InventoryItem, k: int)
    requires k == Sequences.FirstIndex(items, IsItem(item))
    ensures k >= 0 ==> items == items[..k] + [item] + items[k + 1..]
    ensures k < 0 ==> item !in items
  {
    if k >= 0 {
      assert items == items[..k] + [items[k]] + items[k + 1..];
    } else {
      forall j | 0 <= j < |items| ensures items[j] != item {
        assert !IsItem(item)(items[j]);
      }
    }
  }

  /** Deleting removes exactly the first equal item: everything before it stays put and everything after moves up one. */
  lemma DeleteItemRemovesFirst(repo: Repo, item: InventoryItem)
    requires item in repo.app.items
    ensures var items := repo.app.items;
      exists k :: 0 <= k < |items| && items[k] == item && item !in items[..k]
        && DeleteItem(repo, item).app.items == items[..k] + items[k + 1..]
  {
    var items := repo.app.items;
    var k := Sequences.FirstIndex(items, IsItem(item));
    assert k >= 0 && items[k] == item by {
      var j :| 0 <= j < |items| && items[j] == item;
      assert IsItem(item)(items[j]);
    }
    assert item !in items[..k] by {
      forall j | 0 <= j < k ensures items[..k][j] != item {
        assert !IsItem(item)(items[j]);
      }
    }
    assert DeleteItem(repo, item).app.items == items[..k] + items[k + 1..] by {
      DeleteItemItems(repo, item);
    }
  }

  lemma DeleteItemItems(repo: Repo, item: InventoryItem)
    ensures var k := Sequences.FirstIndex(repo.app.items, IsItem(item));
      k >= 0 ==> DeleteItem(repo, item).app.items == repo.app.items[..k] + repo.app.items[k + 1..]
  {
  }

  /** `getNextID`: hands out the current counter, then increments it. */
  function GetNextID(repo: Repo): (r: (Repo, int))
    ensures r.1 == repo.app.nextID && r.0.app.nextID == r.1 + 1
    ensures r.0 == repo.(app := repo.app.(nextID := r.0.app.nextID))
  {
    (repo.(app := repo.app.(nextID := repo.app.nextID + 1)), repo.app.nextID)
  }

  /**
    The two counters disagree by one: the repository hands out the value
    before the increment, the application object the value after it.
   */
  lemma CountersDisagree(repo: Repo)
    ensures GetNextID(repo).0.app == MyApplication.GetNextID(repo.app).0
    ensures GetNextID(repo).1 + 1 == MyApplication.GetNextID(repo.app).1
  {
  }

  /** An id drawn from a counter that is above every id is fresh, and adding an item with it keeps the counter above every id. */
  lemma DrawnIdIsFresh(repo: Repo, item: InventoryItem)
    requires MyApplication.IdsBelowCounter(repo.app)
    requires item.id == GetNextID(repo).1
    ensures !HasItemId(repo.app.items, item.id)
    ensures var drawn := GetNextID(repo).0;
      AddItem(drawn, item).app.items == repo.app.items + [item]
      && MyApplication.IdsBelowCounter(AddItem(drawn, item).app)
  {
    var drawn := GetNextID(repo).0;
    assert drawn.app.items == repo.app.items;
    var r := AddItem(drawn, item).app;
    assert r.items == repo.app.items + [item];
    assert r.nextID == item.id + 1;
    forall i | 0 <= i < |r.items| ensures r.items[i].id < r.nextID {
      if i < |repo.app.items| {
        assert r.items[i] == repo.app.items[i];
      }
    }
  }

  /**
    `loadInventory`: a missing or undecodable file clears the items and sets
    the counter to 1, reporting failure; a snapshot restores its items and
    its stored counter, reporting success.
   */
  function LoadInventory(app: MyApplication.App, file: FileContent): (r: (MyApplication.App, bool))
    ensures r.1 <==> file.Stored?
    ensures !file.Stored? ==> r.0 == app.(items := [], nextID := 1)
    ensures file.Stored? ==> r.0 == app.(items := file.state.items, nextID := file.state.nextID)
  {
    match file
    case Stored(state) =>
      var restored := app.(items := state.items);
      var bumped := MyApplication.SetNextID(restored, MyApplication.MaxId(restored.items));
      (bumped.(nextID := state.nextID), true)
    case _ => (app.(items := [], nextID := 1), false)
  }

  /** Loading the snapshot just saved gives back the items and counter that were saved. */
  lemma SaveThenLoadInventory(repo: Repo, later: MyApplication.App)
    ensures var r := LoadInventory(later, SaveInventory(repo).file);
      r.1 && r.0.items == repo.app.items && r.0.nextID == repo.app.nextID
  {
  }

  /**
    The stored counter wins over the one `setNextID` computed from the
    items, so a snapshot whose counter is not above its ids restores a
    state in which the next id drawn collides with an existing item.
   */
  lemma StoredCounterCanCollide(app: MyApplication.App, item: InventoryItem)
    ensures var r := LoadInventory(app, Stored(InventoryState([item], item.id, InventoryFileName))).0;
      !MyApplication.IdsBelowCounter(r) && HasItemId(r.items, GetNextID(Repo(r, Missing)).1)
  {
    var r := LoadInventory(app, Stored(InventoryState([item], item.id, InventoryFileName))).0;
    assert r.items[0].id == r.nextID;
  }

  /**
    `deleteList`: deletes the file of exactly that name.  A missing file
    counts as success; otherwise the result is whether the platform
    managed to delete it (`deleted`).
   */
  function DeleteList(folder: seq<FileEntry>, listName: string, deleted: bool): (r: (seq<FileEntry>, bool))
    ensures (forall i :: 0 <= i < |folder| ==> folder[i].name != listName) ==> r == (folder, true)
    ensures (exists i :: 0 <= i < |folder| && folder[i].name == listName) ==> r.1 == deleted
    ensures !deleted ==> r.0 == folder
    ensures deleted ==> forall e :: e in r.0 ==> e in folder
    ensures deleted ==> |r.0| == |folder| - (if r.0 == folder then 0 else 1)
    ensures r.0 != folder ==> RemovedFirstNamed(folder, listName, r.0)
    ensures forall e :: e in folder && e.name != listName ==> e in r.0
  {
    var i := Sequences.FirstIndex(folder, NameIs(listName));
    if i < 0 then (folder, true)
    else if !deleted then (folder, false)
    else
      var rest := folder[..i] + folder[i + 1..];
      assert NameIs(listName)(folder[i]);
      assert forall j :: 0 <= j < i ==> !NameIs(listName)(folder[j]);
      RemoveFirstNamed(folder, listName, i);
      (rest, true)
  }

  /**
    With one entry per name, a delete that reports success leaves no entry
    of that name behind, whether it removed one or there was none.
   */
  lemma DeleteLeavesNoEntry(folder: seq<FileEntry>, listName: string, deleted: bool)
    requires DistinctNames(folder)
    ensures var r := DeleteList(folder, listName, deleted);
      r.1 ==> forall e :: e in r.0 ==> e.name != listName
  {
    var i := Sequences.FirstIndex(folder, NameIs(listName));
    if i >= 0 && deleted {
      RemoveEntry(folder, i);
      var rest := folder[..i] + folder[i + 1..];
      assert NameIs(listName)(folder[i]);
      forall e | e in rest ensures e.name != listName {
        var j :| 0 <= j < |rest| && rest[j] == e;
      }
    }
  }

  function NameIs(name: string): FileEntry -> bool {
    (e: FileEntry) => e.name == name
  }
}
