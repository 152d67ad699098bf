/**
  The parts of the Android platform the reminder pipeline touches, as plain
  values: the "alarm_prefs" preference file (string-set values only), the
  exact alarms registered with the alarm service, directory entries, and
  the broadcast intent an alarm delivers.
 */
module Platform {
  import opened Wrappers
  import opened Inventory

  /**
    The extras of a broadcast. `itemData` is the decoded item (`None` when
    the extra is absent or is not a valid item), `listName` is `None` when
    the extra is absent, `daysUntilExpiration` is `None` when absent.
   */
  datatype Intent = Intent(
    action: string,
    listName: Option<string>,
    itemData: Option<InventoryItem>,
    daysUntilExpiration: Option<int>)

  /** An exact wake-up alarm: when it fires and what it broadcasts. */
  datatype Alarm = Alarm(trigger: int, intent: Intent)

  /** One entry of a directory listing; `content` is `None` when the file cannot be read as a list. */
  datatype FileEntry = FileEntry(name: string, isFile: bool, content: Option<InventoryList>)

  /** No two entries of a directory listing share a name. */
  predicate DistinctNames(folder: seq<FileEntry>) {
    forall i, j :: 0 <= i < j < |folder| ==> folder[i].name != folder[j].name
  }

  /** `rest` is `folder` without its first entry called `name`. */
  predicate RemovedFirstNamed(folder: seq<FileEntry>, name: string, rest: seq<FileEntry>) {
    exists i :: 0 <= i < |folder| && folder[i].name == name
      && (forall j :: 0 <= j < i ==> folder[j].name != name)
      && rest == folder[..i] + folder[i + 1..]
  }

  /**
    Removing the entry at `i` keeps every other entry; when names are
    distinct, no remaining entry carries the removed one's name.
   */
  lemma RemoveEntry(folder: seq<FileEntry>, i: int)
    requires 0 <= i < |folder|
    ensures var rest := folder[..i] + folder[i + 1..];
      && |rest| == |folder| - 1
      && (forall e :: e in rest ==> e in folder)
      && (forall e :: e in folder && e.name != folder[i].name ==> e in rest)
      && (DistinctNames(folder) ==> forall j :: 0 <= j < |rest| ==> rest[j].name != folder[i].name)
  {
    var rest := folder[..i] + folder[i + 1..];
    assert forall j :: 0 <= j < i ==> rest[j] == folder[j];
    assert forall j :: i <= j < |rest| ==> rest[j] == folder[j + 1];
    forall e | e in folder && e.name != folder[i].name ensures e in rest {
      var j :| 0 <= j < |folder| && folder[j] == e;
      if j < i {
        assert rest[j] == e;
      } else {
        assert j > i && rest[j - 1] == e;
      }
    }
  }
  /** Removing the first entry called `name`, found at `i`. */
  lemma RemoveFirstNamed(folder: seq<FileEntry>, name: string, i: int)
    requires 0 <= i < |folder| && folder[i].name == name
    requires forall j :: 0 <= j < i ==> folder[j].name != name
    ensures var rest := folder[..i] + folder[i + 1..];
      && RemovedFirstNamed(folder, name, rest)
      && |rest| < |folder|
      && (forall e :: e in rest ==> e in folder)
      && (forall e :: e in folder && e.name != name ==> e in rest)
  {
    RemoveEntry(folder, i);
  }


  /**
    Persistent alarm bookkeeping and the alarm service. Alarms are keyed by
    their request code: registering a code again replaces its alarm, and
    cancelling an unknown code does nothing.
   */
  datatype Device = Device(prefs: map<string, set<string>>, timers: map<int, Alarm>)

  /** `getStringSet(key, emptySet())`. */
  function GetStringSet(prefs: map<string, set<string>>, key: string): (r: set<string>)
    ensures key !in prefs ==> r == {}
  {
    if key in prefs then prefs[key] else {}
  }
}
