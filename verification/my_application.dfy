/**
  The application object: the working list, the perishables flag and the
  id counter, plus the list operations that touch saved files and the
  reminder schedule.
 */
module MyApplication {
  import opened Wrappers
  import opened Calendar
  import opened Inventory
  import opened Platform
  import Text
  import Sequences
  import Permissions
  import AlarmScheduler
  import ListFileManager

  /**
    The working state: the items on screen, the perishables flag, its
    persisted preference, and the counter new items draw their ids from.
   */
  datatype App = App(items: seq<InventoryItem>, perishable: bool, perishablePreference: bool, nextID: int)

  /** `maxOfOrNull { it.id } ?: 0`. */
  function MaxId(items: seq<InventoryItem>): (m: int)
    ensures forall i :: 0 <= i < |items| ==> items[i].id <= m
    ensures items == [] ==> m == 0
    ensures items != [] ==> exists i :: 0 <= i < |items| && items[i].id == m
  {
    if items == [] then 0
    else if |items| == 1 then items[0].id
    else
      var rest := MaxId(items[1..]);
      assert forall i :: 1 <= i < |items| ==> items[i] == items[1..][i - 1];
      if items[0].id >= rest then items[0].id else rest
  }

  /** Every item's id is below the counter, so the next id drawn is fresh. */
  ghost predicate IdsBelowCounter(app: App) {
    forall i :: 0 <= i < |app.items| ==> app.items[i].id < app.nextID
  }

  /** `setNextID`: raises the counter just past `newMaxId`, never lowers it. */
  function SetNextID(app: App, newMaxId: int): (r: App)
    ensures r.nextID > newMaxId && r.nextID >= app.nextID
    ensures r.nextID == app.nextID || r.nextID == newMaxId + 1
    ensures r == app.(nextID := r.nextID)
  {
    if newMaxId >= app.nextID then app.(nextID := newMaxId + 1) else app
  }

  /** The counter after `setNextID` is the least value above both the old counter and `newMaxId`. */
  lemma SetNextIDIsLeast(app: App, newMaxId: int, n: int)
    requires n >= app.nextID && n > newMaxId
    ensures SetNextID(app, newMaxId).nextID <= n
  {
  }

  /** `getNextID`: increments first, then returns the new counter. */
  function GetNextID(app: App): (r: (App, int))
    ensures r.1 == r.0.nextID == app.nextID + 1
    ensures r.0 == app.(nextID := r.1)
  {
    var a := app.(nextID := app.nextID + 1);
    (a, a.nextID)
  }

  /**
    `loadList`: the list's items and flag become the working state; the
    counter becomes the least value that is at least the old counter and
    above every id.
   */
  function LoadList(app: App, list: InventoryList): (r: App)
    ensures r.items == list.items
    ensures r.perishable == list.perishable && r.perishablePreference == list.perishable
    ensures r.nextID >= app.nextID
    ensures IdsBelowCounter(r)
    ensures r.nextID > MaxId(list.items)
    ensures r.nextID == app.nextID || r.nextID == MaxId(list.items) + 1
  {
    SetNextID(App(list.items, list.perishable, list.perishable, app.nextID), MaxId(list.items))
  }

  /** `getInventoryItemById`: the first item with that id. */
  function GetInventoryItemById(app: App, id: int): (r: Option<InventoryItem>)
    ensures r.None? <==> forall i :: 0 <= i < |app.items| ==> app.items[i].id != id
    ensures r.Some? ==> exists i :: 0 <= i < |app.items| && app.items[i] == r.value && r.value.id == id
                                    && forall j :: 0 <= j < i ==> app.items[j].id != id
  {
    var i := Sequences.FirstIndex(app.items, HasId(id));
    if i < 0 then None else Some(app.items[i])
  }

  function HasId(id: int): InventoryItem -> bool {
    (item: InventoryItem) => item.id == id
  }

  // ---------------------------------------------------------------------------
  // Lists on disk and the reminder schedule

  /**
    The application together with the saved-lists folder (`None` until it
    is first created), the alarm bookkeeping and the permission state.
   */
  datatype System = System(app: App, folder: Option<seq<FileEntry>>, device: Device, env: Permissions.Env)

  /** `scheduleAlarmsIfAllowed`: a full scheduling pass, only with both permissions. */
  function ScheduleAlarmsIfAllowed(sys: System, clock: Clock): (r: System)
    ensures !Permissions.CanSchedule(sys.env) ==> r == sys
    ensures r.app == sys.app && r.folder == sys.folder && r.env == sys.env
  {
    if Permissions.NotificationsGranted(sys.env) && Permissions.ExactAlarmsGranted(sys.env) then
      sys.(device := AlarmScheduler.ScheduleAll(sys.device, sys.env, sys.folder, clock, AlarmScheduler.AlarmId))
    else sys
  }

  /**
    With both permissions, a pass leaves the index naming only list files
    that are present, and no alarm bookkeeping at all without the folder.
   */
  lemma ScheduleAlarmsIfAllowedTracksFolder(sys: System, clock: Clock)
    requires Permissions.CanSchedule(sys.env)
    ensures var r := ScheduleAlarmsIfAllowed(sys, clock);
      && (sys.folder.None? ==> AlarmScheduler.IndexKey !in r.device.prefs)
      && (sys.folder.Some? ==>
            GetStringSet(r.device.prefs, AlarmScheduler.IndexKey) <= AlarmScheduler.Names(AlarmScheduler.ListFiles(sys.folder.value)))
  {
    if sys.folder.Some? {
      AlarmScheduler.ScheduleAllDropsDeletedLists(sys.device, sys.env, sys.folder.value, clock, AlarmScheduler.AlarmId);
    }
  }

  function Entries(folder: Option<seq<FileEntry>>): seq<FileEntry> {
    folder.GetOr([])
  }

  /**
    `saveWorkingList`: writes the working list and flag, then schedules if
    allowed.  Writing over a directory throws, so nothing after it runs and
    nothing changes.
   */
  function SaveWorkingList(sys: System, listName: string, clock: Clock): (r: System)
    ensures r.app == sys.app && r.env == sys.env && r.folder.Some?
    ensures !ListFileManager.Writable(Entries(sys.folder), listName) ==> r == sys
    ensures !Permissions.CanSchedule(sys.env) ==> r.device == sys.device
  {
    if !ListFileManager.Writable(Entries(sys.folder), listName) then sys
    else
      var list := InventoryList(sys.app.perishable, sys.app.items);
      var saved := sys.(folder := Some(ListFileManager.SaveList(Entries(sys.folder), listName, list)));
      ScheduleAlarmsIfAllowed(saved, clock)
  }

  /** The saved file reads back as the working items under the working flag. */
  lemma SaveWorkingListStores(sys: System, listName: string, clock: Clock)
    requires ListFileManager.Writable(Entries(sys.folder), listName)
    ensures ListFileManager.LoadList(Entries(SaveWorkingList(sys, listName, clock).folder), listName)
         == Some(InventoryList(sys.app.perishable, sys.app.items))
  {
    ListFileManager.SaveThenLoad(Entries(sys.folder), listName, InventoryList(sys.app.perishable, sys.app.items), listName);
  }

  /**
    `deleteSavedList`: a scheduling pass follows only a deletion that
    reported success; otherwise nothing changes.
   */
  function DeleteSavedList(sys: System, filename: string, deleted: bool, clock: Clock): (r: (System, bool))
    ensures !r.1 ==> r.0.device == sys.device && Entries(r.0.folder) == Entries(sys.folder)
    ensures r.1 ==> r.0 == ScheduleAlarmsIfAllowed(
      sys.(folder := Some(ListFileManager.DeleteList(Entries(sys.folder), filename, deleted).0)), clock)
  {
    var (remaining, ok) := ListFileManager.DeleteList(Entries(sys.folder), filename, deleted);
    var s := sys.(folder := Some(remaining));
    if ok then (ScheduleAlarmsIfAllowed(s, clock), true) else (s, false)
  }

  /**
    A list saved under a name ending in ".JSON" (any case other than
    ".json") shows up among the saved lists, yet the scheduling pass that
    follows the save never indexes it: the listing ignores the extension's
    case and the scheduler does not.
   */
  lemma UpperCaseExtensionListedNotScheduled(sys: System, listName: string, clock: Clock)
    requires Text.EndsWith(listName, ".JSON")
    requires Permissions.CanSchedule(sys.env)
    requires ListFileManager.Writable(Entries(sys.folder), listName)
    ensures var r := SaveWorkingList(sys, listName, clock);
      && ListFileManager.NameWithoutExtension(listName) in ListFileManager.ListSavedLists(r.folder)
      && listName !in GetStringSet(r.device.prefs, AlarmScheduler.IndexKey)
  {
    var list := InventoryList(sys.app.perishable, sys.app.items);
    var entries := ListFileManager.SaveList(Entries(sys.folder), listName, list);
    UpperJsonListed(Entries(sys.folder), listName, list);
    UpperJsonNotScanned(entries, listName);
    ScheduleAlarmsIfAllowedTracksFolder(sys.(folder := Some(entries)), clock);
  }

  /** A name ending in ".JSON" is kept as the file name and listed after a save. */
  lemma UpperJsonListed(folder: seq<FileEntry>, listName: string, list: InventoryList)
    requires Text.EndsWith(listName, ".JSON")
    requires ListFileManager.Writable(folder, listName)
    ensures ListFileManager.NameWithoutExtension(listName) in ListFileManager.ListSavedLists(Some(ListFileManager.SaveList(folder, listName, list)))
  {
    var entries := ListFileManager.SaveList(folder, listName, list);
    ListFileManager.EndsWithUpperJson(listName);
    assert ListFileManager.LoadList(entries, listName) == Some(list) by {
      ListFileManager.SaveThenLoad(folder, listName, list, listName);
    }
    var i :| 0 <= i < |entries| && entries[i].name == listName && entries[i].isFile
             && entries[i].content == Some(list);
    assert ListFileManager.IsSavedList(entries[i]) by {
      ExtensionOfUpperJson(listName);
    }
    ListFileManager.ListSavedListsContents(entries);
  }

  /** The scheduler's case-sensitive scan never picks up a name ending in ".JSON". */
  lemma UpperJsonNotScanned(entries: seq<FileEntry>, listName: string)
    requires Text.EndsWith(listName, ".JSON")
    ensures listName !in AlarmScheduler.Names(AlarmScheduler.ListFiles(entries))
  {
    assert !Text.EndsWith(listName, ".json") by {
      assert listName[|listName| - 5..][1] == 'J';
    }
  }

  lemma ExtensionOfUpperJson(name: string)
    requires Text.EndsWith(name, ".JSON")
    ensures ListFileManager.Extension(name) == "JSON"
    ensures Text.EqualsIgnoreCase("JSON", "json")
  {
    var d := ListFileManager.LastDot(name);
    assert name[|name| - 5] == '.';
    assert d == |name| - 5 by {
      assert forall k :: |name| - 5 < k < |name| ==> name[k] != '.' by {
        assert name[|name| - 5..] == ".JSON";
        assert forall k :: |name| - 5 < k < |name| ==> name[k] == ".JSON"[k - (|name| - 5)];
      }
      LastDotIsLast(name, |name| - 5);
    }
    assert name[d + 1..] == "JSON" by {
      assert name[|name| - 5..] == ".JSON";
    }
  }

  lemma LastDotIsLast(name: string, k: int)
    requires 0 <= k < |name| && name[k] == '.'
    requires forall j :: k < j < |name| ==> name[j] != '.'
    ensures ListFileManager.LastDot(name) == k
  {
    var d := ListFileManager.LastDot(name);
    assert d >= k;
  }
}
