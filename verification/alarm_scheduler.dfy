/**
  The reminder planner and reconciler. For every saved list it works out
  which reminder alarms the list's items call for, registers all of them,
  cancels the ones it registered last time that are no longer wanted, and
  records the new alarm ids in the preference file under "alarms_<list>"
  together with a global index of list names under "all_alarm_keys".
 */
module AlarmScheduler {
  import opened Wrappers
  import opened Calendar
  import opened Inventory
  import opened Platform
  import Permissions
  import Decimal
  import JavaHash
  import IsoDate
  import Sorting
  import Text

  const AlarmAction: string := "smart.pantry.ALARM_EXPIRATION"
  const IndexKey: string := "all_alarm_keys"
  /** Five minutes: a trigger this far in the past is still scheduled. */
  const LookBackMillis: int := 5 * 60 * 1000

  /** The preference key holding a list's alarm ids. */
  function AlarmsKey(listName: string): (k: string)
    ensures k != IndexKey
    ensures Text.StartsWith(k, "alarms_") && k[7..] == listName
  {
    var k := "alarms_" + listName;
    assert k[2] != IndexKey[2];
    k
  }

  lemma AlarmsKeyInjective(a: string, b: string)
    ensures AlarmsKey(a) == AlarmsKey(b) ==> a == b
  {
    if AlarmsKey(a) == AlarmsKey(b) {
      assert a == AlarmsKey(a)[7..];
    }
  }

  // ---------------------------------------------------------------------------
  // The interval catalogue

  /** The catalogue in the order it is written, before `.sorted()`. */
  const WrittenIntervals: seq<int> :=
    [1, 3, 7, 14, 30, 60, 90, 120, 150, 180, 365,
     730, 1095, 1460, 1825, 2190, 2555, 2920, 3285, 3650]

  predicate IntLe(a: int, b: int) { a <= b }

  /**
    Days before expiration at which a reminder fires: the written catalogue
    after `.sorted()`, which `SortingKeepsCatalogue` shows to be the
    written catalogue itself.
   */
  const NotificationIntervals: seq<int> := WrittenIntervals

  predicate StrictlyAscending(s: seq<int>) {
    forall i, j :: 0 <= i < j < |s| ==> s[i] < s[j]
  }

  lemma {:induction false} AdjacentAscending(s: seq<int>)
    requires forall i :: 0 <= i < |s| - 1 ==> s[i] < s[i + 1]
    ensures StrictlyAscending(s)
  {
    if |s| > 1 {
      var init := s[..|s| - 1];
      AdjacentAscending(init);
      forall i, j | 0 <= i < j < |s|
        ensures s[i] < s[j]
      {
        if j == |s| - 1 && i < j - 1 {
          assert init[i] < init[j - 1];
        }
      }
    }
  }

  /**
    The catalogue is strictly ascending: 1, 3, 7, 14, 30, 60, 90, 120, 150,
    180, 365 and then one to ten years in steps of 365 days.
   */
  lemma CatalogueShape()
    ensures StrictlyAscending(NotificationIntervals)
    ensures |NotificationIntervals| == 20
    ensures forall i :: 10 <= i < 20 ==> NotificationIntervals[i] == 365 * (i - 9)
  {
    AdjacentAscending(NotificationIntervals);
    var s := NotificationIntervals;
    forall i | 10 <= i < 20
      ensures s[i] == 365 * (i - 9)
    {
      if i < 15 {
        assert i == 10 || i == 11 || i == 12 || i == 13 || i == 14;
      } else {
        assert i == 15 || i == 16 || i == 17 || i == 18 || i == 19;
      }
    }
  }

  /** Being ascending, the catalogue is left as written by `.sorted()`. */
  lemma SortingKeepsCatalogue()
    ensures Sorting.Sort(WrittenIntervals, IntLe) == NotificationIntervals
  {
    CatalogueShape();
    assert Sorting.Sorted(WrittenIntervals, IntLe);
    Sorting.SortOfSorted(WrittenIntervals, IntLe);
  }

  // ---------------------------------------------------------------------------
  // Alarm ids

  /** What an alarm id is derived from. */
  datatype AlarmKey = AlarmKey(listName: string, itemName: string, expDate: Date, interval: int)

  /** The text `getUniqueID` hashes: "<list>_<item>_<yyyy-MM-dd>_<interval>". */
  function KeyText(k: AlarmKey): string
  {
    k.listName + "_" + k.itemName + "_" + IsoDate.DateText(k.expDate) + "_" + Decimal.Show(k.interval)
  }

  /** `getUniqueID`: Java's `String.hashCode` of the key text, a signed 32-bit Int. */
  function AlarmId(k: AlarmKey): (id: int)
    ensures Decimal.InInt32(id)
  {
    JavaHash.HashCode(KeyText(k))
  }

  /**
    The planner and reconciler below are stated for any id function `idOf`
    whose values are 32-bit Ints, the app's being `AlarmId`; nothing relies
    on ids being distinct.
   */
  ghost predicate Int32Ids(idOf: AlarmKey -> int) {
    forall k :: Decimal.InInt32(idOf(k))
  }

  lemma AlarmIdIsInt32()
    ensures Int32Ids(AlarmId)
  {}

  // ---------------------------------------------------------------------------
  // Planning

  /**
    Whether interval `iv` yields a reminder for `item`: the item is not
    expired, is inside its notice window, the interval fits both the notice
    and the days left, and 15:00 on the reminder day is later than five
    minutes ago.
   */
  predicate Qualifies(item: InventoryItem, iv: int, clock: Clock) {
    var daysLeft := DaysBetween(clock.today, item.expDate);
    && !item.IsExpired(clock.today)
    && daysLeft <= item.daysNotice
    && iv <= item.daysNotice
    && iv <= daysLeft
    && clock.at15(item.expDate - iv) > clock.nowMillis - LookBackMillis
  }

  /** The intervals of `ivs`, in order, that fit the window (the inner loop). */
  function FittingIntervals(ivs: seq<int>, item: InventoryItem, clock: Clock): (r: seq<int>)
    ensures |r| <= |ivs|
    ensures forall iv :: iv in r <==> iv in ivs && Qualifies(item, iv, clock)
  {
    if ivs == [] then []
    else
      var rest := FittingIntervals(ivs[..|ivs| - 1], item, clock);
      var iv := ivs[|ivs| - 1];
      assert ivs == ivs[..|ivs| - 1] + [iv];
      if Qualifies(item, iv, clock) then rest + [iv] else rest
  }

  /** The reminder intervals for one item: none for an expired item or one outside its window. */
  function ItemIntervals(item: InventoryItem, clock: Clock): (r: seq<int>)
    ensures item.IsExpired(clock.today) ==> r == []
    ensures forall iv :: iv in r <==> iv in NotificationIntervals && Qualifies(item, iv, clock)
  {
    if item.IsExpired(clock.today) then []
    else if DaysBetween(clock.today, item.expDate) > item.daysNotice then []
    else FittingIntervals(NotificationIntervals, item, clock)
  }

  /** One alarm to register, under the id it is registered with. */
  datatype Planned = Planned(id: int, alarm: Alarm)

  function KeyFor(listName: string, item: InventoryItem, iv: int): AlarmKey {
    AlarmKey(listName, item.name, item.expDate, iv)
  }

  /** The alarm for interval `iv` of `item`: 15:00 on the reminder day, carrying the list, the item and the interval. */
  function AlarmFor(idOf: AlarmKey -> int, listName: string, item: InventoryItem, iv: int, clock: Clock): Planned
  {
    Planned(idOf(KeyFor(listName, item, iv)),
            Alarm(clock.at15(item.expDate - iv), Intent(AlarmAction, Some(listName), Some(item), Some(iv))))
  }

  /** The alarms of `item` for the intervals `ivs`, in order. */
  function PlanIntervals(idOf: AlarmKey -> int, listName: string, item: InventoryItem, ivs: seq<int>, clock: Clock): seq<Planned>
  {
    if ivs == [] then []
    else PlanIntervals(idOf, listName, item, ivs[..|ivs| - 1], clock) + [AlarmFor(idOf, listName, item, ivs[|ivs| - 1], clock)]
  }

  function ItemPlan(idOf: AlarmKey -> int, listName: string, item: InventoryItem, clock: Clock): seq<Planned>
  {
    PlanIntervals(idOf, listName, item, ItemIntervals(item, clock), clock)
  }

  /** All alarms of a list, item by item and, within an item, interval by interval. */
  function PlanList(idOf: AlarmKey -> int, listName: string, items: seq<InventoryItem>, clock: Clock): seq<Planned>
  {
    if items == [] then []
    else PlanList(idOf, listName, items[..|items| - 1], clock) + ItemPlan(idOf, listName, items[|items| - 1], clock)
  }

  /** `p` is the alarm of some qualifying interval of `item`. */
  predicate AlarmOf(idOf: AlarmKey -> int, listName: string, item: InventoryItem, clock: Clock, p: Planned) {
    exists iv :: iv in NotificationIntervals && Qualifies(item, iv, clock) && p == AlarmFor(idOf, listName, item, iv, clock)
  }

  lemma {:induction false} PlanIntervalsMembers(idOf: AlarmKey -> int, listName: string, item: InventoryItem, ivs: seq<int>, clock: Clock, p: Planned)
    ensures p in PlanIntervals(idOf, listName, item, ivs, clock) <==> exists iv :: iv in ivs && p == AlarmFor(idOf, listName, item, iv, clock)
  {
    if ivs != [] {
      var init := ivs[..|ivs| - 1];
      PlanIntervalsMembers(idOf, listName, item, init, clock, p);
      assert ivs == init + [ivs[|ivs| - 1]];
    }
  }

  /** An item's plan holds exactly the alarms of its qualifying intervals. */
  lemma ItemPlanMembers(idOf: AlarmKey -> int, listName: string, item: InventoryItem, clock: Clock, p: Planned)
    ensures p in ItemPlan(idOf, listName, item, clock) <==> AlarmOf(idOf, listName, item, clock, p)
  {
    PlanIntervalsMembers(idOf, listName, item, ItemIntervals(item, clock), clock, p);
  }

  lemma {:induction false} PlanListItems(idOf: AlarmKey -> int, listName: string, items: seq<InventoryItem>, clock: Clock, p: Planned)
    ensures p in PlanList(idOf, listName, items, clock) <==> exists item :: item in items && p in ItemPlan(idOf, listName, item, clock)
  {
    if items != [] {
      var init := items[..|items| - 1];
      var last := items[|items| - 1];
      assert items == init + [last];
      PlanListItems(idOf, listName, init, clock, p);
      var rest := PlanList(idOf, listName, init, clock);
      var own := ItemPlan(idOf, listName, last, clock);
      assert PlanList(idOf, listName, items, clock) == rest + own;
      if p in rest + own {
        if p in own {
          assert last in items;
        } else {
          var item :| item in init && p in ItemPlan(idOf, listName, item, clock);
          assert item in items;
        }
      }
      if exists item :: item in items && p in ItemPlan(idOf, listName, item, clock) {
        var item :| item in items && p in ItemPlan(idOf, listName, item, clock);
        if item != last {
          assert item in init;
        }
      }
    }
  }

  /**
    Exactly the alarms of qualifying (item, interval) pairs are planned:
    an id for interval `iv` of an item is planned only when the item is
    unexpired and inside its window, `iv` fits both, and the trigger is
    later than five minutes ago.
   */
  lemma PlanListMembers(idOf: AlarmKey -> int, listName: string, items: seq<InventoryItem>, clock: Clock, p: Planned)
    ensures p in PlanList(idOf, listName, items, clock) <==> exists item :: item in items && AlarmOf(idOf, listName, item, clock, p)
  {
    PlanListItems(idOf, listName, items, clock, p);
    forall item | item in items
      ensures p in ItemPlan(idOf, listName, item, clock) <==> AlarmOf(idOf, listName, item, clock, p)
    {
      ItemPlanMembers(idOf, listName, item, clock, p);
    }
  }

  /** An expired item contributes no alarm. */
  lemma ExpiredItemPlansNothing(idOf: AlarmKey -> int, listName: string, item: InventoryItem, clock: Clock)
    requires item.IsExpired(clock.today)
    ensures ItemPlan(idOf, listName, item, clock) == []
  {}

  function Ids(plan: seq<Planned>): set<int> {
    set p | p in plan :: p.id
  }

  lemma IdsAppend(x: seq<Planned>, y: seq<Planned>)
    ensures Ids(x + y) == Ids(x) + Ids(y)
  {
    forall k | k in Ids(x + y) ensures k in Ids(x) + Ids(y) {
      var p :| p in x + y && p.id == k;
    }
  }

  lemma {:induction false} FittingIgnoresIdCodeQuantity(ivs: seq<int>, a: InventoryItem, b: InventoryItem, clock: Clock)
    requires a.expDate == b.expDate && a.daysNotice == b.daysNotice
    ensures FittingIntervals(ivs, a, clock) == FittingIntervals(ivs, b, clock)
  {
    if ivs != [] {
      FittingIgnoresIdCodeQuantity(ivs[..|ivs| - 1], a, b, clock);
    }
  }

  lemma {:induction false} PlanIntervalsIds(idOf: AlarmKey -> int, listName: string, a: InventoryItem, b: InventoryItem, ivs: seq<int>, clock: Clock)
    requires a.name == b.name && a.expDate == b.expDate
    ensures Ids(PlanIntervals(idOf, listName, a, ivs, clock)) == Ids(PlanIntervals(idOf, listName, b, ivs, clock))
  {
    if ivs != [] {
      var init := ivs[..|ivs| - 1];
      var iv := ivs[|ivs| - 1];
      PlanIntervalsIds(idOf, listName, a, b, init, clock);
      IdsAppend(PlanIntervals(idOf, listName, a, init, clock), [AlarmFor(idOf, listName, a, iv, clock)]);
      IdsAppend(PlanIntervals(idOf, listName, b, init, clock), [AlarmFor(idOf, listName, b, iv, clock)]);
    }
  }

  /**
    An item's alarm ids depend only on the list name, the item's name,
    expiration date and notice: changing its id, code or quantity leaves
    them as they were.
   */
  lemma ItemIdsIgnoreIdCodeQuantity(idOf: AlarmKey -> int, listName: string, item: InventoryItem,
                                    newId: int, newCode: string, newQuantity: int, clock: Clock)
    ensures var edited := item.(id := newId, code := newCode, quantity := newQuantity);
      Ids(ItemPlan(idOf, listName, edited, clock)) == Ids(ItemPlan(idOf, listName, item, clock))
  {
    var edited := item.(id := newId, code := newCode, quantity := newQuantity);
    FittingIgnoresIdCodeQuantity(NotificationIntervals, edited, item, clock);
    PlanIntervalsIds(idOf, listName, edited, item, ItemIntervals(item, clock), clock);
  }

  // ---------------------------------------------------------------------------
  // Registering and cancelling

  /** Registers the planned alarms in order; a repeated id keeps the later alarm. */
  function Register(timers: map<int, Alarm>, plan: seq<Planned>): map<int, Alarm>
  {
    if plan == [] then timers
    else Register(timers, plan[..|plan| - 1])[plan[|plan| - 1].id := plan[|plan| - 1].alarm]
  }

  /** Registering merges the plan's own map (its keys being the plan's ids) over the existing alarms. */
  lemma {:induction false} RegisterIsMerge(timers: map<int, Alarm>, plan: seq<Planned>)
    ensures Register(timers, plan) == timers + Register(map[], plan)
    ensures Register(map[], plan).Keys == Ids(plan)
  {
    if plan != [] {
      var init := plan[..|plan| - 1];
      RegisterIsMerge(timers, init);
      assert plan == init + [plan[|plan| - 1]];
      IdsAppend(init, [plan[|plan| - 1]]);
    }
  }

  /** The alarm registered under an id is the one of the last planned entry with that id. */
  lemma {:induction false} RegisterLastWins(timers: map<int, Alarm>, plan: seq<Planned>, i: int)
    requires 0 <= i < |plan| && forall j :: i < j < |plan| ==> plan[j].id != plan[i].id
    ensures plan[i].id in Register(timers, plan) && Register(timers, plan)[plan[i].id] == plan[i].alarm
  {
    if i < |plan| - 1 {
      RegisterLastWins(timers, plan[..|plan| - 1], i);
    }
  }

  /** The ids written as text, as `alarmId.toString()` does. */
  function IdTexts(plan: seq<Planned>): set<string> {
    set p | p in plan :: Decimal.Show(p.id)
  }

  /** The ids that `toIntOrNull` recovers from stored texts; other texts are skipped. */
  function ParsedIds(texts: set<string>): set<int> {
    set t | t in texts && Decimal.Parse(t).Some? :: Decimal.Parse(t).value
  }

  ghost predicate AllCanonical(texts: set<string>) {
    forall t :: t in texts ==> Decimal.IsCanonical(t)
  }

  /** Every stored id set is written the way `toString()` writes Ints. */
  ghost predicate CanonicalPrefs(prefs: map<string, set<string>>) {
    forall key :: key in prefs && key != IndexKey ==> AllCanonical(prefs[key])
  }

  ghost predicate PlanInt32(plan: seq<Planned>) {
    forall p :: p in plan ==> Decimal.InInt32(p.id)
  }

  lemma {:induction false} PlanListInt32(idOf: AlarmKey -> int, listName: string, items: seq<InventoryItem>, clock: Clock)
    requires Int32Ids(idOf)
    ensures PlanInt32(PlanList(idOf, listName, items, clock))
  {
    forall p | p in PlanList(idOf, listName, items, clock)
      ensures Decimal.InInt32(p.id)
    {
      PlanListMembers(idOf, listName, items, clock, p);
    }
  }

  lemma IdTextsCanonical(plan: seq<Planned>)
    requires PlanInt32(plan)
    ensures AllCanonical(IdTexts(plan))
  {
    forall t | t in IdTexts(plan) ensures Decimal.IsCanonical(t) {
      var p :| p in plan && Decimal.Show(p.id) == t;
      Decimal.ShowInjective(p.id, p.id);
    }
  }

  /**
    With canonical stored texts, the stale texts (stored but not planned)
    name exactly the stored ids that are not planned.
   */
  lemma StaleIds(stored: set<string>, plan: seq<Planned>)
    requires AllCanonical(stored) && PlanInt32(plan)
    ensures ParsedIds(stored - IdTexts(plan)) == ParsedIds(stored) - Ids(plan)
  {
    forall k | k in ParsedIds(stored - IdTexts(plan))
      ensures k !in Ids(plan)
    {
      var t :| t in stored - IdTexts(plan) && Decimal.Parse(t).Some? && Decimal.Parse(t).value == k;
      assert Decimal.Show(k) == t;
      forall p | p in plan ensures p.id != k {
        assert Decimal.Show(p.id) in IdTexts(plan);
      }
    }
    forall k | k in ParsedIds(stored) - Ids(plan)
      ensures k in ParsedIds(stored - IdTexts(plan))
    {
      var t :| t in stored && Decimal.Parse(t).Some? && Decimal.Parse(t).value == k;
      forall p | p in plan ensures Decimal.Show(p.id) != t {
        Decimal.ParseShow(p.id);
      }
    }
  }

  // ---------------------------------------------------------------------------
  // One list

  /** Every preference key outside `touched` is as it was (present or absent, same value). */
  ghost predicate OtherKeysUnchanged(before: map<string, set<string>>, after: map<string, set<string>>, touched: set<string>) {
    forall key :: key !in touched ==> (key in after <==> key in before) && (key in after ==> after[key] == before[key])
  }

  /**
    `scheduleAlarmsForList`: with both permissions and a readable list, plan
    its alarms, register every one of them, cancel the ids stored last time
    that are not planned now, store the planned ids and add the list to the
    index. Otherwise nothing changes.
   */
  function ScheduleAlarmsForList(dev: Device, env: Permissions.Env, content: Option<InventoryList>,
                                 listName: string, clock: Clock, idOf: AlarmKey -> int): (r: Device)
    ensures !Permissions.NotificationsGranted(env) || !Permissions.ExactAlarmsGranted(env) || content.None? ==> r == dev
    ensures Permissions.CanSchedule(env) && content.Some? ==>
      && AlarmsKey(listName) in r.prefs
      && r.prefs[AlarmsKey(listName)] == IdTexts(PlanList(idOf, listName, content.value.items, clock))
      && GetStringSet(r.prefs, IndexKey) == GetStringSet(dev.prefs, IndexKey) + {listName}
      && OtherKeysUnchanged(dev.prefs, r.prefs, {AlarmsKey(listName), IndexKey})
  {
    if !Permissions.NotificationsGranted(env) || !Permissions.ExactAlarmsGranted(env) then dev
    else if content.None? then dev
    else
      var spKey := AlarmsKey(listName);
      var stored := GetStringSet(dev.prefs, spKey);
      var plan := PlanList(idOf, listName, content.value.items, clock);
      var current := IdTexts(plan);
      var timers := Register(dev.timers, plan) - ParsedIds(stored - current);
      var prefs := dev.prefs[spKey := current];
      Device(prefs[IndexKey := GetStringSet(prefs, IndexKey) + {listName}], timers)
  }

  /**
    After a successful pass the alarms are: the previous ones minus the
    stale ids (stored last time, not planned now), with every planned alarm
    registered over them. So the cancelled ids are exactly the stored ids
    minus the planned ids, and no planned alarm is cancelled.
   */
  lemma ScheduleReconciles(dev: Device, env: Permissions.Env, content: Option<InventoryList>,
                           listName: string, clock: Clock, idOf: AlarmKey -> int)
    requires Permissions.CanSchedule(env) && content.Some?
    requires CanonicalPrefs(dev.prefs) && Int32Ids(idOf)
    ensures var plan := PlanList(idOf, listName, content.value.items, clock);
      var stale := ParsedIds(GetStringSet(dev.prefs, AlarmsKey(listName))) - Ids(plan);
      && ScheduleAlarmsForList(dev, env, content, listName, clock, idOf).timers
           == (dev.timers - stale) + Register(map[], plan)
      && Register(map[], plan).Keys == Ids(plan)
  {
    var plan := PlanList(idOf, listName, content.value.items, clock);
    var stored := GetStringSet(dev.prefs, AlarmsKey(listName));
    PlanListInt32(idOf, listName, content.value.items, clock);
    StaleIds(stored, plan);
    RegisterIsMerge(dev.timers, plan);
    var stale := ParsedIds(stored) - Ids(plan);
    var r := Register(map[], plan);
    assert (dev.timers + r) - stale == (dev.timers - stale) + r;
  }

  /** Every set a pass stores is canonical, so the invariant is kept. */
  lemma ScheduleKeepsCanonical(dev: Device, env: Permissions.Env, content: Option<InventoryList>,
                               listName: string, clock: Clock, idOf: AlarmKey -> int)
    requires CanonicalPrefs(dev.prefs) && Int32Ids(idOf)
    ensures CanonicalPrefs(ScheduleAlarmsForList(dev, env, content, listName, clock, idOf).prefs)
  {
    if Permissions.CanSchedule(env) && content.Some? {
      var plan := PlanList(idOf, listName, content.value.items, clock);
      PlanListInt32(idOf, listName, content.value.items, clock);
      IdTextsCanonical(plan);
    }
  }

  /** Running a pass twice on the same list contents is the same as running it once. */
  lemma ScheduleIdempotent(dev: Device, env: Permissions.Env, content: Option<InventoryList>,
                           listName: string, clock: Clock, idOf: AlarmKey -> int)
    requires CanonicalPrefs(dev.prefs) && Int32Ids(idOf)
    ensures var once := ScheduleAlarmsForList(dev, env, content, listName, clock, idOf);
      ScheduleAlarmsForList(once, env, content, listName, clock, idOf) == once
  {
    if Permissions.CanSchedule(env) && content.Some? {
      var once := ScheduleAlarmsForList(dev, env, content, listName, clock, idOf);
      var twice := ScheduleAlarmsForList(once, env, content, listName, clock, idOf);
      assert twice.timers == once.timers by {
        ScheduleTwiceTimers(dev, env, content, listName, clock, idOf);
      }
      assert twice.prefs == once.prefs;
    }
  }

  /** A second pass finds nothing stale, so it cancels nothing and registers what is already there. */
  lemma ScheduleTwiceTimers(dev: Device, env: Permissions.Env, content: Option<InventoryList>,
                            listName: string, clock: Clock, idOf: AlarmKey -> int)
    requires Permissions.CanSchedule(env) && content.Some?
    requires CanonicalPrefs(dev.prefs) && Int32Ids(idOf)
    ensures var once := ScheduleAlarmsForList(dev, env, content, listName, clock, idOf);
      ScheduleAlarmsForList(once, env, content, listName, clock, idOf).timers == once.timers
  {
    var once := ScheduleAlarmsForList(dev, env, content, listName, clock, idOf);
    var plan := PlanList(idOf, listName, content.value.items, clock);
    var r := Register(map[], plan);
    assert once.timers == (once.timers - {}) + r by {
      ScheduleReconciles(dev, env, content, listName, clock, idOf);
    }
    assert ParsedIds(GetStringSet(once.prefs, AlarmsKey(listName))) - Ids(plan) == {} by {
      PlanListInt32(idOf, listName, content.value.items, clock);
      IdTextsCanonical(plan);
      StaleIds(IdTexts(plan), plan);
      assert IdTexts(plan) - IdTexts(plan) == {};
    }
    ScheduleKeepsCanonical(dev, env, content, listName, clock, idOf);
    ScheduleReconciles(once, env, content, listName, clock, idOf);
  }

  // ---------------------------------------------------------------------------
  // Cancelling lists

  /**
    `cancelAlarmsForList`: cancel every stored id of the list, remove its
    "alarms_" key and drop it from the index.
   */
  function CancelAlarmsForList(dev: Device, listName: string): (r: Device)
    ensures AlarmsKey(listName) !in r.prefs
    ensures GetStringSet(r.prefs, IndexKey) == GetStringSet(dev.prefs, IndexKey) - {listName}
    ensures r.timers == dev.timers - ParsedIds(GetStringSet(dev.prefs, AlarmsKey(listName)))
    ensures OtherKeysUnchanged(dev.prefs, r.prefs, {AlarmsKey(listName), IndexKey})
  {
    var spKey := AlarmsKey(listName);
    var stored := GetStringSet(dev.prefs, spKey);
    var prefs := dev.prefs - {spKey};
    Device(prefs[IndexKey := GetStringSet(prefs, IndexKey) - {listName}], dev.timers - ParsedIds(stored))
  }

  /** Cancelling lists one after another, in the order given. */
  function CancelEach(dev: Device, names: seq<string>): Device
  {
    if names == [] then dev
    else CancelAlarmsForList(CancelEach(dev, names[..|names| - 1]), names[|names| - 1])
  }

  /** The stored ids of all the named lists. */
  function StoredIds(prefs: map<string, set<string>>, names: set<string>): set<int> {
    set n, t | n in names && t in GetStringSet(prefs, AlarmsKey(n)) && Decimal.Parse(t).Some? :: Decimal.Parse(t).value
  }

  function AlarmsKeys(names: set<string>): set<string> {
    set n | n in names :: AlarmsKey(n)
  }

  /**
    The effect of cancelling a set of lists, whatever order they are taken
    in (the source walks a hash set, whose order is unspecified).
   */
  function CancelLists(dev: Device, names: set<string>): (r: Device)
    ensures forall n :: n in names ==> AlarmsKey(n) !in r.prefs
    ensures GetStringSet(r.prefs, IndexKey) == GetStringSet(dev.prefs, IndexKey) - names
    ensures r.timers == dev.timers - StoredIds(dev.prefs, names)
    ensures OtherKeysUnchanged(dev.prefs, r.prefs, AlarmsKeys(names) + {IndexKey})
  {
    if names == {} then
      assert StoredIds(dev.prefs, names) == {};
      dev
    else
      var prefs := dev.prefs - AlarmsKeys(names);
      Device(prefs[IndexKey := GetStringSet(dev.prefs, IndexKey) - names], dev.timers - StoredIds(dev.prefs, names))
  }

  lemma CancelOneMore(dev: Device, names: set<string>, n: string)
    ensures CancelAlarmsForList(CancelLists(dev, names), n) == CancelLists(dev, names + {n})
  {
    CancelOneMorePrefs(dev, names, n);
    CancelOneMoreTimers(dev, names, n);
  }

  lemma CancelOneMorePrefs(dev: Device, names: set<string>, n: string)
    ensures CancelAlarmsForList(CancelLists(dev, names), n).prefs == CancelLists(dev, names + {n}).prefs
  {
    var a := CancelAlarmsForList(CancelLists(dev, names), n);
    var b := CancelLists(dev, names + {n});
    forall key
      ensures (key in a.prefs <==> key in b.prefs) && (key in a.prefs ==> a.prefs[key] == b.prefs[key])
    {
      if key in AlarmsKeys(names + {n}) {
        var m :| m in names + {n} && key == AlarmsKey(m);
        if m in names {
          assert key in AlarmsKeys(names);
        }
      } else {
        assert key !in AlarmsKeys(names) && key != AlarmsKey(n);
      }
    }
  }

  lemma CancelOneMoreTimers(dev: Device, names: set<string>, n: string)
    ensures CancelAlarmsForList(CancelLists(dev, names), n).timers == CancelLists(dev, names + {n}).timers
  {
    var d := CancelLists(dev, names);
    var storedN := GetStringSet(d.prefs, AlarmsKey(n));
    assert storedN == if n in names then {} else GetStringSet(dev.prefs, AlarmsKey(n));
    forall k | k in StoredIds(dev.prefs, names + {n})
      ensures k in StoredIds(dev.prefs, names) + ParsedIds(storedN)
    {
      var m, t :| m in names + {n} && t in GetStringSet(dev.prefs, AlarmsKey(m)) && Decimal.Parse(t).Some? && Decimal.Parse(t).value == k;
    }
  }

  /** Cancelling lists one by one in any order has the effect of `CancelLists` on the set of names. */
  lemma {:induction false} CancelEachIsCancelLists(dev: Device, names: seq<string>)
    ensures CancelEach(dev, names) == CancelLists(dev, set n | n in names)
  {
    if names != [] {
      var init := names[..|names| - 1];
      var n := names[|names| - 1];
      CancelEachIsCancelLists(dev, init);
      CancelOneMore(dev, (set m | m in init), n);
      NamesOfLast(names, init, n);
    }
  }

  lemma NamesOfLast(names: seq<string>, init: seq<string>, n: string)
    requires names == init + [n]
    ensures (set m | m in names) == (set m | m in init) + {n}
  {
  }

  /** `cancelAllAlarms`: cancel every indexed list, then remove the index itself. */
  function CancelAllAlarms(dev: Device): (r: Device)
    ensures IndexKey !in r.prefs
    ensures forall n :: n in GetStringSet(dev.prefs, IndexKey) ==> AlarmsKey(n) !in r.prefs
    ensures r.timers == dev.timers - StoredIds(dev.prefs, GetStringSet(dev.prefs, IndexKey))
    ensures OtherKeysUnchanged(dev.prefs, r.prefs, AlarmsKeys(GetStringSet(dev.prefs, IndexKey)) + {IndexKey})
  {
    var d := CancelLists(dev, GetStringSet(dev.prefs, IndexKey));
    Device(d.prefs - {IndexKey}, d.timers)
  }

  // ---------------------------------------------------------------------------
  // All lists

  /** The entries `scheduleAll` treats as lists: regular files whose name ends with ".json" (case-sensitive). */
  function ListFiles(entries: seq<FileEntry>): (r: seq<FileEntry>)
    ensures forall f :: f in r <==> f in entries && f.isFile && Text.EndsWith(f.name, ".json")
  {
    if entries == [] then []
    else
      var rest := ListFiles(entries[..|entries| - 1]);
      var e := entries[|entries| - 1];
      assert entries == entries[..|entries| - 1] + [e];
      if e.isFile && Text.EndsWith(e.name, ".json") then rest + [e] else rest
  }

  function Names(files: seq<FileEntry>): set<string> {
    set f | f in files :: f.name
  }

  /** Scheduling each list file in turn. */
  function ScheduleEach(dev: Device, env: Permissions.Env, files: seq<FileEntry>, clock: Clock, idOf: AlarmKey -> int): Device
  {
    if files == [] then dev
    else
      var f := files[|files| - 1];
      ScheduleAlarmsForList(ScheduleEach(dev, env, files[..|files| - 1], clock, idOf), env, f.content, f.name, clock, idOf)
  }

  /**
    `scheduleAll`: with no list folder, cancel everything; otherwise cancel
    the indexed lists that no longer have a file, then schedule every list
    file. Alarm keys are file names, ".json" included.
   */
  function ScheduleAll(dev: Device, env: Permissions.Env, folder: Option<seq<FileEntry>>, clock: Clock, idOf: AlarmKey -> int): Device
  {
    if folder.None? then CancelAllAlarms(dev)
    else
      var files := ListFiles(folder.value);
      var toCancel := GetStringSet(dev.prefs, IndexKey) - Names(files);
      var d := if toCancel != {} then CancelLists(dev, toCancel) else dev;
      ScheduleEach(d, env, files, clock, idOf)
  }

  /** Scheduling files leaves the bookkeeping of every other list alone. */
  lemma {:induction false} ScheduleEachOthers(dev: Device, env: Permissions.Env, files: seq<FileEntry>, clock: Clock,
                                              idOf: AlarmKey -> int, n: string)
    requires n !in Names(files)
    ensures var r := ScheduleEach(dev, env, files, clock, idOf);
      && (AlarmsKey(n) in r.prefs <==> AlarmsKey(n) in dev.prefs)
      && (n in GetStringSet(r.prefs, IndexKey) <==> n in GetStringSet(dev.prefs, IndexKey))
  {
    if files != [] {
      var init := files[..|files| - 1];
      var f := files[|files| - 1];
      assert f in files;
      assert Names(init) <= Names(files) by {
        forall m | m in Names(init) ensures m in Names(files) {
          var g :| g in init && g.name == m;
          assert g in files;
        }
      }
      ScheduleEachOthers(dev, env, init, clock, idOf, n);
      AlarmsKeyInjective(n, f.name);
    }
  }

  /** The index only ever gains the names of the files scheduled. */
  lemma {:induction false} ScheduleEachIndex(dev: Device, env: Permissions.Env, files: seq<FileEntry>, clock: Clock, idOf: AlarmKey -> int)
    ensures GetStringSet(ScheduleEach(dev, env, files, clock, idOf).prefs, IndexKey) <= GetStringSet(dev.prefs, IndexKey) + Names(files)
  {
    if files != [] {
      var init := files[..|files| - 1];
      ScheduleEachIndex(dev, env, init, clock, idOf);
      assert files[|files| - 1] in files;
      assert Names(init) <= Names(files) by {
        forall m | m in Names(init) ensures m in Names(files) {
          var g :| g in init && g.name == m;
          assert g in files;
        }
      }
    }
  }

  /**
    After a scan of an existing folder, every indexed list that has no file
    has lost its "alarms_" key and its index entry, and the index names only
    existing list files.
   */
  lemma ScheduleAllDropsDeletedLists(dev: Device, env: Permissions.Env, entries: seq<FileEntry>, clock: Clock, idOf: AlarmKey -> int)
    ensures var r := ScheduleAll(dev, env, Some(entries), clock, idOf);
      && (forall n :: n in GetStringSet(dev.prefs, IndexKey) && n !in Names(ListFiles(entries)) ==>
            AlarmsKey(n) !in r.prefs && n !in GetStringSet(r.prefs, IndexKey))
      && GetStringSet(r.prefs, IndexKey) <= Names(ListFiles(entries))
  {
    var files := ListFiles(entries);
    var toCancel := GetStringSet(dev.prefs, IndexKey) - Names(files);
    var d := if toCancel != {} then CancelLists(dev, toCancel) else dev;
    assert ScheduleAll(dev, env, Some(entries), clock, idOf) == ScheduleEach(d, env, files, clock, idOf);
    forall n | n in GetStringSet(dev.prefs, IndexKey) && n !in Names(files)
      ensures AlarmsKey(n) !in ScheduleAll(dev, env, Some(entries), clock, idOf).prefs
      ensures n !in GetStringSet(ScheduleAll(dev, env, Some(entries), clock, idOf).prefs, IndexKey)
    {
      assert n in toCancel;
      assert AlarmsKey(n) !in d.prefs && n !in GetStringSet(d.prefs, IndexKey);
      ScheduleEachOthers(d, env, files, clock, idOf, n);
    }
    ScheduleEachIndex(d, env, files, clock, idOf);
  }

  /** A missing folder cancels every indexed list's alarms and removes the index. */
  lemma ScheduleAllWithoutFolder(dev: Device, env: Permissions.Env, clock: Clock, idOf: AlarmKey -> int)
    ensures var r := ScheduleAll(dev, env, None, clock, idOf);
      && IndexKey !in r.prefs
      && (forall n :: n in GetStringSet(dev.prefs, IndexKey) ==> AlarmsKey(n) !in r.prefs)
      && r.timers == dev.timers - StoredIds(dev.prefs, GetStringSet(dev.prefs, IndexKey))
  {}

  lemma {:induction false} ScheduleEachKeepsCanonical(dev: Device, env: Permissions.Env, files: seq<FileEntry>, clock: Clock, idOf: AlarmKey -> int)
    requires CanonicalPrefs(dev.prefs) && Int32Ids(idOf)
    ensures CanonicalPrefs(ScheduleEach(dev, env, files, clock, idOf).prefs)
  {
    if files != [] {
      var init := files[..|files| - 1];
      var f := files[|files| - 1];
      ScheduleEachKeepsCanonical(dev, env, init, clock, idOf);
      ScheduleKeepsCanonical(ScheduleEach(dev, env, init, clock, idOf), env, f.content, f.name, clock, idOf);
    }
  }

  /**
    Every stored id text stays in the form `toString()` writes, which is
    what makes "cancelled = stored minus planned" hold on every later pass.
   */
  lemma ScheduleAllKeepsCanonical(dev: Device, env: Permissions.Env, folder: Option<seq<FileEntry>>, clock: Clock, idOf: AlarmKey -> int)
    requires CanonicalPrefs(dev.prefs) && Int32Ids(idOf)
    ensures CanonicalPrefs(ScheduleAll(dev, env, folder, clock, idOf).prefs)
  {
    if folder.Some? {
      var files := ListFiles(folder.value);
      var toCancel := GetStringSet(dev.prefs, IndexKey) - Names(files);
      var d := if toCancel != {} then CancelLists(dev, toCancel) else dev;
      ScheduleEachKeepsCanonical(d, env, files, clock, idOf);
    }
  }

  // ---------------------------------------------------------------------------
  // Running the whole pass again

  /** Files with the same name are the same file. */
  ghost predicate NamesDetermineFiles(files: seq<FileEntry>) {
    forall f, g :: f in files && g in files && f.name == g.name ==> f == g
  }

  /** Every readable list file already has its current ids stored and is indexed. */
  ghost predicate Absorbed(prefs: map<string, set<string>>, files: seq<FileEntry>, clock: Clock, idOf: AlarmKey -> int) {
    forall f :: f in files && f.content.Some? ==>
      && AlarmsKey(f.name) in prefs
      && prefs[AlarmsKey(f.name)] == IdTexts(PlanList(idOf, f.name, f.content.value.items, clock))
      && f.name in GetStringSet(prefs, IndexKey)
  }

  /** The list files of a directory listing inherit its distinct names. */
  lemma ListFilesDistinct(entries: seq<FileEntry>)
    requires DistinctNames(entries)
    ensures NamesDetermineFiles(ListFiles(entries))
  {
    forall f, g | f in ListFiles(entries) && g in ListFiles(entries) && f.name == g.name ensures f == g {
      var i :| 0 <= i < |entries| && entries[i] == f;
      var j :| 0 <= j < |entries| && entries[j] == g;
      assert !(i < j) && !(j < i);
    }
  }

  /** Without both permissions, scheduling files changes nothing. */
  lemma {:induction false} ScheduleEachUnpermitted(dev: Device, env: Permissions.Env, files: seq<FileEntry>, clock: Clock, idOf: AlarmKey -> int)
    requires !Permissions.CanSchedule(env)
    ensures ScheduleEach(dev, env, files, clock, idOf) == dev
  {
    if files != [] {
      ScheduleEachUnpermitted(dev, env, files[..|files| - 1], clock, idOf);
    }
  }

  /** A run over the files records every readable one under its current plan. */
  lemma {:induction false} ScheduleEachAbsorbs(dev: Device, env: Permissions.Env, files: seq<FileEntry>, clock: Clock, idOf: AlarmKey -> int)
    requires Permissions.CanSchedule(env) && NamesDetermineFiles(files)
    ensures Absorbed(ScheduleEach(dev, env, files, clock, idOf).prefs, files, clock, idOf)
  {
    if files != [] {
      var init, f := files[..|files| - 1], files[|files| - 1];
      assert files == init + [f];
      ScheduleEachAbsorbs(dev, env, init, clock, idOf);
      var d := ScheduleEach(dev, env, init, clock, idOf);
      var r := ScheduleAlarmsForList(d, env, f.content, f.name, clock, idOf);
      forall g | g in files && g.content.Some?
        ensures AlarmsKey(g.name) in r.prefs
        ensures r.prefs[AlarmsKey(g.name)] == IdTexts(PlanList(idOf, g.name, g.content.value.items, clock))
        ensures g.name in GetStringSet(r.prefs, IndexKey)
      {
        if g.name == f.name {
          assert g == f;
        } else {
          assert g in init;
          AlarmsKeyInjective(g.name, f.name);
        }
      }
    }
  }

  /** A run over files already recorded leaves the preferences as they are. */
  lemma {:induction false} ScheduleEachOnAbsorbed(dev: Device, env: Permissions.Env, files: seq<FileEntry>, clock: Clock, idOf: AlarmKey -> int)
    requires Absorbed(dev.prefs, files, clock, idOf)
    ensures ScheduleEach(dev, env, files, clock, idOf).prefs == dev.prefs
  {
    if files != [] {
      var init, f := files[..|files| - 1], files[|files| - 1];
      assert files == init + [f];
      ScheduleEachOnAbsorbed(dev, env, init, clock, idOf);
      var d := ScheduleEach(dev, env, init, clock, idOf);
      if Permissions.CanSchedule(env) && f.content.Some? {
        assert f in files;
        RecordedListUnchanged(d, env, f, clock, idOf);
      }
    }
  }

  /** Scheduling a list whose current ids are already stored and indexed leaves the preferences as they are. */
  lemma RecordedListUnchanged(d: Device, env: Permissions.Env, f: FileEntry, clock: Clock, idOf: AlarmKey -> int)
    requires Permissions.CanSchedule(env) && f.content.Some?
    requires AlarmsKey(f.name) in d.prefs
    requires d.prefs[AlarmsKey(f.name)] == IdTexts(PlanList(idOf, f.name, f.content.value.items, clock))
    requires f.name in GetStringSet(d.prefs, IndexKey)
    ensures ScheduleAlarmsForList(d, env, f.content, f.name, clock, idOf).prefs == d.prefs
  {
    var r := ScheduleAlarmsForList(d, env, f.content, f.name, clock, idOf);
    assert IndexKey in d.prefs && IndexKey in r.prefs;
    forall key ensures (key in r.prefs <==> key in d.prefs) && (key in r.prefs ==> r.prefs[key] == d.prefs[key]) {
    }
  }

  /**
    Running the whole pass a second time leaves the preference file as the
    first run left it: nothing is left to cancel, and every list file's ids
    and index entry are already the ones the run writes.  Without both
    permissions, or without the folder, the second run changes nothing at
    all.
   */
  lemma ScheduleAllPrefsIdempotent(dev: Device, env: Permissions.Env, folder: Option<seq<FileEntry>>, clock: Clock, idOf: AlarmKey -> int)
    requires folder.Some? ==> DistinctNames(folder.value)
    ensures var once := ScheduleAll(dev, env, folder, clock, idOf);
      ScheduleAll(once, env, folder, clock, idOf).prefs == once.prefs
    ensures var once := ScheduleAll(dev, env, folder, clock, idOf);
      folder.None? || !Permissions.CanSchedule(env) ==> ScheduleAll(once, env, folder, clock, idOf) == once
  {
    var once := ScheduleAll(dev, env, folder, clock, idOf);
    if folder.None? {
      assert CancelLists(once, GetStringSet(once.prefs, IndexKey)) == once;
      assert once.prefs - {IndexKey} == once.prefs;
    } else {
      var files := ListFiles(folder.value);
      ScheduleAllDropsDeletedLists(dev, env, folder.value, clock, idOf);
      assert GetStringSet(once.prefs, IndexKey) - Names(files) == {};
      assert ScheduleAll(once, env, folder, clock, idOf) == ScheduleEach(once, env, files, clock, idOf);
      if Permissions.CanSchedule(env) {
        var toCancel := GetStringSet(dev.prefs, IndexKey) - Names(files);
        var d := if toCancel != {} then CancelLists(dev, toCancel) else dev;
        ListFilesDistinct(folder.value);
        ScheduleEachAbsorbs(d, env, files, clock, idOf);
        ScheduleEachOnAbsorbed(once, env, files, clock, idOf);
      } else {
        ScheduleEachUnpermitted(once, env, files, clock, idOf);
      }
    }
  }

  // ---------------------------------------------------------------------------
  // Colliding ids: a second whole pass can restore an alarm

  /** An id function under which every alarm collides on id 7. */
  function SameId(k: AlarmKey): int { 7 }

  /** An item expiring tomorrow with one day's notice. */
  const TomorrowItem: InventoryItem := InventoryItem(1, "milk", "", 1, 1, 1)

  const CollisionClock: Clock := Clock(0, 0, d => 0)

  /** "a.json" holds the item; "b.json" is an empty list. */
  const CollisionFolder: seq<FileEntry> := [
    FileEntry("a.json", true, Some(InventoryList(false, [TomorrowItem]))),
    FileEntry("b.json", true, Some(InventoryList(false, [])))
  ]

  lemma {:induction false} SameIdPlan(listName: string, item: InventoryItem, ivs: seq<int>, clock: Clock)
    ensures |PlanIntervals(SameId, listName, item, ivs, clock)| == |ivs|
    ensures forall p :: p in PlanIntervals(SameId, listName, item, ivs, clock) ==> p.id == 7
  {
    if ivs != [] {
      SameIdPlan(listName, item, ivs[..|ivs| - 1], clock);
    }
  }

  /** Under `SameId`, "a.json" plans exactly id 7 and "b.json" plans nothing. */
  lemma CollisionPlans()
    ensures Ids(PlanList(SameId, "a.json", [TomorrowItem], CollisionClock)) == {7}
    ensures IdTexts(PlanList(SameId, "a.json", [TomorrowItem], CollisionClock)) == {"7"}
    ensures PlanList(SameId, "b.json", [], CollisionClock) == []
    ensures ParsedIds({"7"}) == {7}
  {
    var item, clock := TomorrowItem, CollisionClock;
    var ivs := ItemIntervals(item, clock);
    assert 1 in ivs by {
      assert NotificationIntervals[0] == 1;
      assert Qualifies(item, 1, clock);
    }
    var plan := PlanIntervals(SameId, "a.json", item, ivs, clock);
    assert PlanList(SameId, "a.json", [item], clock) == plan by {
      assert [item][..0] == [];
    }
    SameIdPlan("a.json", item, ivs, clock);
    assert plan != [] && plan[0] in plan;
    assert Ids(plan) == {7};
    assert Decimal.Show(7) == "7";
    assert IdTexts(plan) == {"7"};
    Decimal.ParseShow(7);
  }

  lemma CollisionListFiles()
    ensures ListFiles(CollisionFolder) == CollisionFolder
    ensures Names(CollisionFolder) == {"a.json", "b.json"}
  {
    var a, b := CollisionFolder[0], CollisionFolder[1];
    assert Text.EndsWith(a.name, ".json") by {
      assert a.name[|a.name| - 5..] == ".json";
    }
    assert Text.EndsWith(b.name, ".json") by {
      assert b.name[|b.name| - 5..] == ".json";
    }
    assert [a][..0] == [];
    assert ListFiles([a]) == [a];
    assert CollisionFolder[..1] == [a];
  }

  /** Scheduling the two lists in turn. */
  lemma CollisionPassSteps(dev: Device, env: Permissions.Env)
    requires GetStringSet(dev.prefs, IndexKey) <= {"a.json", "b.json"}
    ensures ScheduleAll(dev, env, Some(CollisionFolder), CollisionClock, SameId)
      == ScheduleAlarmsForList(
           ScheduleAlarmsForList(dev, env, CollisionFolder[0].content, "a.json", CollisionClock, SameId),
           env, CollisionFolder[1].content, "b.json", CollisionClock, SameId)
  {
    var a := CollisionFolder[0];
    CollisionListFiles();
    assert GetStringSet(dev.prefs, IndexKey) - Names(CollisionFolder) == {};
    assert CollisionFolder[..1] == [a];
    assert [a][..0] == [];
    assert ScheduleEach(dev, env, [a], CollisionClock, SameId)
      == ScheduleAlarmsForList(dev, env, a.content, "a.json", CollisionClock, SameId);
  }

  /** "a.json" registers id 7 when nothing but "7" is stored for it, and leaves "b.json"'s ids alone. */
  lemma CollisionPassA(dev: Device, env: Permissions.Env)
    requires env == Permissions.Env(30, true, true)
    requires GetStringSet(dev.prefs, AlarmsKey("a.json")) <= {"7"}
    ensures var r := ScheduleAlarmsForList(dev, env, CollisionFolder[0].content, "a.json", CollisionClock, SameId);
      && 7 in r.timers
      && GetStringSet(r.prefs, AlarmsKey("b.json")) == GetStringSet(dev.prefs, AlarmsKey("b.json"))
      && GetStringSet(r.prefs, AlarmsKey("a.json")) == {"7"}
      && GetStringSet(r.prefs, IndexKey) == GetStringSet(dev.prefs, IndexKey) + {"a.json"}
  {
    var r := ScheduleAlarmsForList(dev, env, CollisionFolder[0].content, "a.json", CollisionClock, SameId);
    var plan := PlanList(SameId, "a.json", [TomorrowItem], CollisionClock);
    assert Permissions.CanSchedule(env);
    CollisionPlans();
    assert GetStringSet(r.prefs, AlarmsKey("b.json")) == GetStringSet(dev.prefs, AlarmsKey("b.json")) by {
      AlarmsKeyInjective("a.json", "b.json");
      assert AlarmsKey("b.json") != IndexKey;
    }
    assert r.timers == Register(dev.timers, plan) - ParsedIds(GetStringSet(dev.prefs, AlarmsKey("a.json")) - IdTexts(plan));
    assert GetStringSet(dev.prefs, AlarmsKey("a.json")) - IdTexts(plan) == {};
    assert ParsedIds({}) == {};
    assert 7 in Register(dev.timers, plan) by {
      RegisterIsMerge(dev.timers, plan);
    }
  }

  /** "b.json" plans nothing: its stored ids are cancelled and its stored set becomes empty. */
  lemma CollisionPassB(dev: Device, env: Permissions.Env)
    requires env == Permissions.Env(30, true, true)
    ensures var r := ScheduleAlarmsForList(dev, env, CollisionFolder[1].content, "b.json", CollisionClock, SameId);
      && r.timers == dev.timers - ParsedIds(GetStringSet(dev.prefs, AlarmsKey("b.json")))
      && GetStringSet(r.prefs, AlarmsKey("b.json")) == {}
      && GetStringSet(r.prefs, IndexKey) == GetStringSet(dev.prefs, IndexKey) + {"b.json"}
  {
    CollisionPlans();
    assert IdTexts([]) == {};
  }

  /**
    Running the whole pass twice can leave different alarms when ids
    collide. "b.json" still has id 7 stored from an earlier plan, and
    "a.json" now plans id 7: the first pass registers 7 for "a.json" and
    then cancels it as stale for "b.json"; the second pass finds nothing
    stale and registers it again.
   */
  lemma RepeatedPassCanRestoreAlarm()
    ensures var env := Permissions.Env(30, true, true);
      var dev := Device(map[AlarmsKey("b.json") := {"7"}], map[]);
      var once := ScheduleAll(dev, env, Some(CollisionFolder), CollisionClock, SameId);
      7 !in once.timers && 7 in ScheduleAll(once, env, Some(CollisionFolder), CollisionClock, SameId).timers
  {
    var env := Permissions.Env(30, true, true);
    var dev := Device(map[AlarmsKey("b.json") := {"7"}], map[]);
    assert GetStringSet(dev.prefs, IndexKey) == {} by {
      assert AlarmsKey("b.json") != IndexKey;
    }
    CollisionPassSteps(dev, env);
    assert GetStringSet(dev.prefs, AlarmsKey("a.json")) == {} by {
      AlarmsKeyInjective("a.json", "b.json");
    }
    CollisionPassA(dev, env);
    var afterA := ScheduleAlarmsForList(dev, env, CollisionFolder[0].content, "a.json", CollisionClock, SameId);
    CollisionPassB(afterA, env);
    CollisionPlans();
    var once := ScheduleAll(dev, env, Some(CollisionFolder), CollisionClock, SameId);
    assert 7 !in once.timers;
    CollisionPassSteps(once, env);
    var againA := ScheduleAlarmsForList(once, env, CollisionFolder[0].content, "a.json", CollisionClock, SameId);
    CollisionPassA(once, env);
    CollisionPassB(againA, env);
  }
}
