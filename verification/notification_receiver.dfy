/**
  The alarm receiver: each firing records "(trigger, interval)" for the item
  in a per-list reminder map (last write wins), then renders one
  notification per list from the reminders that are at most an hour old,
  ordered by trigger.
 */
module NotificationReceiver {
  import opened Wrappers
  import opened Calendar
  import opened Inventory
  import opened Platform
  import Decimal
  import JavaHash
  import Text
  import Sorting
  import Sequences
  import AlarmScheduler

  /** An hour: older reminders are no longer shown. */
  const ShowWindowMillis: int := 60 * 60 * 1000

  // ---------------------------------------------------------------------------
  // Time-left labels

  /** "<n> <unit>", with an "s" exactly when n > 1. */
  function Plural(n: int, unit: string): string {
    Decimal.Show(n) + " " + unit + (if n > 1 then "s" else "")
  }

  /** `formatTimeLeft`: a day count in a bucketed, human-readable form. */
  function FormatTimeLeft(days: int): string {
    if days <= 1 then "1 day"
    else if days < 7 then Decimal.Show(days) + " days"
    else if days < 14 then "1 week"
    else if days < 30 then Decimal.Show(days / 7) + " weeks"
    else if days < 60 then "1 month"
    else if days < 365 then Decimal.Show(days / 30) + " months"
    else if days < 730 then "1 year"
    else Decimal.Show(days / 365) + " years"
  }

  /** The units a label counts in, with their length in days. */
  const Units: seq<(int, string)> := [(1, "day"), (7, "week"), (30, "month"), (365, "year")]

  /** The largest of day (1), week (7), month (30) and year (365) that fits in `days`. */
  function UnitFor(days: int): (r: (int, string))
    requires days >= 1
    ensures r in Units && r.0 <= days
    ensures forall u :: u in Units && u.0 <= days ==> u.0 <= r.0
  {
    if days < 7 then (1, "day")
    else if days < 30 then (7, "week")
    else if days < 365 then (30, "month")
    else (365, "year")
  }

  /**
    The label counts whole units of the largest unit that fits: `n` units
    where `n * unit <= days < (n + 1) * unit`, pluralised exactly when
    `n > 1`; a count of one day or less reads "1 day".
   */
  lemma FormatTimeLeftCountsUnits(days: int)
    ensures days <= 1 ==> FormatTimeLeft(days) == "1 day"
    ensures days >= 1 ==>
      var unit := UnitFor(days);
      var n := days / unit.0;
      && FormatTimeLeft(days) == Plural(n, unit.1)
      && n >= 1 && n * unit.0 <= days < (n + 1) * unit.0
  {
    if days >= 1 {
      LabelIsPlural(days);
      UnitCount(days);
    }
  }

  lemma LabelIsPlural(days: int)
    requires days >= 1
    ensures FormatTimeLeft(days) == Plural(days / UnitFor(days).0, UnitFor(days).1)
  {
    if days < 7 {
      assert UnitFor(days) == (1, "day") && days / 1 == days;
      PluralForm(days, "day", " days");
    } else if days < 30 {
      assert UnitFor(days) == (7, "week");
      assert days < 14 <==> days / 7 == 1;
      PluralForm(days / 7, "week", " weeks");
    } else if days < 365 {
      assert UnitFor(days) == (30, "month");
      assert days < 60 <==> days / 30 == 1;
      PluralForm(days / 30, "month", " months");
    } else {
      assert UnitFor(days) == (365, "year");
      assert days < 730 <==> days / 365 == 1;
      PluralForm(days / 365, "year", " years");
    }
  }

  lemma UnitCount(days: int)
    requires days >= 1
    ensures var u := UnitFor(days).0;
      days / u >= 1 && (days / u) * u <= days < (days / u + 1) * u
  {
    if days < 7 {
      assert UnitFor(days).0 == 1;
    } else if days < 30 {
      assert UnitFor(days).0 == 7;
    } else if days < 365 {
      assert UnitFor(days).0 == 30;
    } else {
      assert UnitFor(days).0 == 365;
    }
  }

  /** The two shapes of a plural label. */
  lemma PluralForm(n: int, unit: string, suffix: string)
    requires suffix == " " + unit + "s"
    ensures n == 1 ==> Plural(n, unit) == "1 " + unit
    ensures n > 1 ==> Plural(n, unit) == Decimal.Show(n) + suffix
  {
    if n == 1 {
      assert Decimal.Show(1) == "1" by { assert Decimal.Digits(1) == "1"; }
    }
  }

  // ---------------------------------------------------------------------------
  // The reminder map

  datatype Reminder = Reminder(trigger: int, daysLeft: int)

  /** One list's reminders: item name to reminder, each name at most once, in insertion order. */
  type Entries = seq<(string, Reminder)>

  predicate UniqueNames(m: Entries) {
    forall i, j :: 0 <= i < j < |m| ==> m[i].0 != m[j].0
  }

  function HasName(name: string): ((string, Reminder)) -> bool {
    (e: (string, Reminder)) => e.0 == name
  }

  /** The reminder stored under `name`, if any (the first such entry). */
  function Lookup(m: Entries, name: string): (r: Option<Reminder>)
    ensures r.None? <==> forall i :: 0 <= i < |m| ==> m[i].0 != name
    ensures r.Some? ==> (name, r.value) in m
  {
    var k := Sequences.FirstIndex(m, HasName(name));
    if k < 0 then None else Some(m[k].1)
  }

  /** `map[name] = r`: replaces the entry in place, or appends a new one. */
  function Put(m: Entries, name: string, r: Reminder): (res: Entries)
    ensures |res| == if Lookup(m, name).None? then |m| + 1 else |m|
    ensures forall i :: 0 <= i < |m| ==> res[i].0 == m[i].0
    ensures Lookup(m, name).None? ==> res[|m|] == (name, r)
    ensures Lookup(res, name) == Some(r)
    ensures forall other :: other != name ==> Lookup(res, other) == Lookup(m, other)
    ensures UniqueNames(m) ==> UniqueNames(res)
  {
    var k := Sequences.FirstIndex(m, HasName(name));
    if k < 0 then
      AppendLookups(m, name, r);
      m + [(name, r)]
    else
      ReplaceLookups(m, k, name, r);
      m[k := (name, r)]
  }

  lemma AppendLookups(m: Entries, name: string, r: Reminder)
    requires Sequences.FirstIndex(m, HasName(name)) < 0
    ensures forall o :: Lookup(m + [(name, r)], o) == if o == name then Some(r) else Lookup(m, o)
  {
    var res := m + [(name, r)];
    assert forall i :: 0 <= i < |m| ==> res[i] == m[i];
    forall o ensures Lookup(res, o) == if o == name then Some(r) else Lookup(m, o) {
      Sequences.FirstIndexAppend(m, (name, r), HasName(o));
    }
  }

  lemma ReplaceLookups(m: Entries, k: int, name: string, r: Reminder)
    requires 0 <= k < |m| && k == Sequences.FirstIndex(m, HasName(name))
    ensures forall i :: 0 <= i < |m| ==> m[k := (name, r)][i].0 == m[i].0
    ensures forall o :: Lookup(m[k := (name, r)], o) == if o == name then Some(r) else Lookup(m, o)
  {
    var res := m[k := (name, r)];
    assert HasName(name)(m[k]);
    assert forall i :: 0 <= i < |m| ==> res[i].0 == m[i].0;
    forall o ensures Lookup(res, o) == if o == name then Some(r) else Lookup(m, o) {
      Sequences.FirstIndexSame(m, res, HasName(o));
      var j := Sequences.FirstIndex(m, HasName(o));
      if j >= 0 {
        assert HasName(o)(m[j]);
        assert o == name <==> j == k;
      }
    }
  }

  // ---------------------------------------------------------------------------
  // Receiving and rendering

  /** The process-wide aggregation map: list name to that list's reminders. */
  datatype Receiver = Receiver(lists: map<string, Entries>)

  /** What `notify` posts: its id, title, text, inbox lines and the list a tap opens. */
  datatype Notification = Notification(id: int, title: string, summary: string, lines: seq<string>, openList: string)

  /** Whether a reminder is recent enough to be shown. */
  function Current(cutoff: int): ((string, Reminder)) -> bool {
    (e: (string, Reminder)) => e.1.trigger >= cutoff
  }

  function TriggerLe(a: (string, Reminder), b: (string, Reminder)): bool {
    a.1.trigger <= b.1.trigger
  }

  lemma TriggerLeIsPreorder()
    ensures Sorting.TotalPreorder(TriggerLe)
  {
  }

  /** The reminders a notification lists, earliest trigger first. */
  function Shown(m: Entries, now: int): Entries {
    Sorting.Sort(Sequences.Filter(m, Current(now - ShowWindowMillis)), TriggerLe)
  }

  function Line(e: (string, Reminder)): string {
    FormatTimeLeft(e.1.daysLeft) + " left: " + e.0
  }

  function Lines(m: Entries): (r: seq<string>)
    ensures |r| == |m|
    ensures forall i :: 0 <= i < |m| ==> r[i] == Line(m[i])
  {
    if m == [] then [] else [Line(m[0])] + Lines(m[1..])
  }

  /** `buildAndShowNotification`. */
  function BuildAndShow(rx: Receiver, listName: string, now: int): (r: (Receiver, Option<Notification>))
    ensures listName !in rx.lists || rx.lists[listName] == [] ==> r == (rx, None)
    ensures r.1.Some? ==> r.0 == rx
    ensures r.1.Some? ==> r.1.value.id == JavaHash.HashCode(listName) && r.1.value.openList == listName
  {
    if listName !in rx.lists || rx.lists[listName] == [] then (rx, None)
    else
      var current := Sequences.Filter(rx.lists[listName], Current(now - ShowWindowMillis));
      if current == [] then (Receiver(rx.lists - {listName}), None)
      else
        var count := |current|;
        var stripped := Text.DropLast(listName, 5);
        var title := Plural(count, "Item") + " in " + stripped + " expiring soon!";
        var summary := "Items in " + stripped + " going!";
        (rx, Some(Notification(JavaHash.HashCode(listName), title, summary,
                               Lines(Sorting.Sort(current, TriggerLe)), listName)))
  }

  /** The reminders recent enough to be shown, in recording order. */
  function Recent(m: Entries, now: int): Entries {
    Sequences.Filter(m, Current(now - ShowWindowMillis))
  }

  /**
    The reminders a rendering lists are exactly the list's reminders whose
    trigger is at most an hour before `now`, each as often as recorded.
   */
  lemma ShownReminders(m: Entries, now: int)
    ensures forall e :: e in Shown(m, now) <==> e in m && e.1.trigger >= now - ShowWindowMillis
    ensures multiset(Shown(m, now)) == multiset(Recent(m, now))
  {
    var current := Recent(m, now);
    Sequences.FilterMembers(m, Current(now - ShowWindowMillis));
    var shown := Sorting.Sort(current, TriggerLe);
    forall e ensures e in shown <==> e in current {
      assert e in shown <==> e in multiset(shown);
      assert e in current <==> e in multiset(current);
    }
  }

  /**
    They are listed earliest trigger first, and reminders with equal
    triggers keep the order they were recorded in.
   */
  lemma ShownOrder(m: Entries, now: int, k: (string, Reminder))
    ensures Sorting.Sorted(Shown(m, now), TriggerLe)
    ensures Sequences.Filter(Shown(m, now), Sorting.TiedWith(TriggerLe, k))
         == Sequences.Filter(Recent(m, now), Sorting.TiedWith(TriggerLe, k))
  {
    TriggerLeIsPreorder();
    Sorting.SortSorted(Recent(m, now), TriggerLe);
    Sorting.SortStable(Recent(m, now), TriggerLe, k);
  }

  /**
    A list with reminders either gets a notification that has one line per
    shown reminder, in shown order, and a title counting those lines, or —
    when no reminder is recent enough — loses its entry and shows nothing.
   */
  lemma BuildAndShowLists(rx: Receiver, listName: string, now: int)
    requires listName in rx.lists && rx.lists[listName] != []
    ensures var r := BuildAndShow(rx, listName, now);
      var shown := Shown(rx.lists[listName], now);
      && (shown == [] <==> r.1.None?)
      && (r.1.None? ==> r.0.lists == rx.lists - {listName})
      && (r.1.Some? ==>
            && r.1.value.lines == Lines(shown)
            && r.1.value.title == Plural(|r.1.value.lines|, "Item") + " in " + Text.DropLast(listName, 5) + " expiring soon!")
  {
    var m := rx.lists[listName];
    assert |Shown(m, now)| == |Recent(m, now)| by {
      ShownReminders(m, now);
      assert |multiset(Shown(m, now))| == |multiset(Recent(m, now))|;
    }
  }

  /** The list a firing is filed under: a missing extra reads as "null". */
  function ListNameOf(intent: Intent): string {
    intent.listName.GetOr("null")
  }

  /** The reminder map after a firing has been recorded, before rendering. */
  function Record(rx: Receiver, intent: Intent, clock: Clock): Receiver
    requires intent.itemData.Some?
  {
    var listName := ListNameOf(intent);
    var item := intent.itemData.value;
    var interval := intent.daysUntilExpiration.GetOr(0);
    var m := if listName in rx.lists then rx.lists[listName] else [];
    Receiver(rx.lists[listName := Put(m, item.name, Reminder(clock.at15(item.expDate - interval), interval))])
  }

  /** `onReceive`: ignores foreign actions and undecodable items, else records and renders. */
  function OnReceive(rx: Receiver, intent: Intent, clock: Clock): (r: (Receiver, Option<Notification>))
    ensures intent.action != AlarmScheduler.AlarmAction ==> r == (rx, None)
    ensures intent.itemData.None? ==> r == (rx, None)
    ensures r.1.Some? ==> r.1.value.openList == ListNameOf(intent)
  {
    if intent.action != AlarmScheduler.AlarmAction || intent.itemData.None? then (rx, None)
    else BuildAndShow(Record(rx, intent, clock), ListNameOf(intent), clock.nowMillis)
  }

  /**
    A firing stores, for its item, the 15:00 instant of "expiry minus the
    alarm's interval" together with that interval (0 when the extra is
    missing), replacing any earlier reminder of the same item name; every
    other item of the list and every other list keep their reminders.
   */
  lemma RecordLastWriteWins(rx: Receiver, intent: Intent, clock: Clock)
    requires intent.itemData.Some?
    ensures var after := Record(rx, intent, clock);
      var listName := ListNameOf(intent);
      var item := intent.itemData.value;
      var interval := intent.daysUntilExpiration.GetOr(0);
      && listName in after.lists
      && Lookup(after.lists[listName], item.name) == Some(Reminder(clock.at15(item.expDate - interval), interval))
      && (forall name :: name != item.name ==>
            Lookup(after.lists[listName], name) == (if listName in rx.lists then Lookup(rx.lists[listName], name) else None))
      && (forall other :: other != listName ==>
            (other in after.lists <==> other in rx.lists) && (other in rx.lists ==> after.lists[other] == rx.lists[other]))
  {
  }

  /**
    The receiver and the scheduler agree: when an alarm the scheduler
    planned fires (on a clock with the same 15:00 instants), the reminder
    recorded for its item is the alarm's own trigger instant and interval,
    under the alarm's list. If that trigger is within the last hour the
    list is rendered, keeping the reminder, and the notification opens the
    list; otherwise nothing is shown and the list's reminders are dropped.
   */
  lemma FiringPlannedAlarm(idOf: AlarmScheduler.AlarmKey -> int, rx: Receiver, listName: string,
                           item: InventoryItem, iv: int, clock: Clock, fired: Clock)
    requires fired.at15 == clock.at15
    ensures var alarm := AlarmScheduler.AlarmFor(idOf, listName, item, iv, clock).alarm;
      var recorded := Record(rx, alarm.intent, fired);
      var r := OnReceive(rx, alarm.intent, fired);
      && listName in recorded.lists
      && Lookup(recorded.lists[listName], item.name) == Some(Reminder(alarm.trigger, iv))
      && (alarm.trigger >= fired.nowMillis - ShowWindowMillis ==> r.1.Some?)
      && (r.1.Some? ==> r.0 == recorded && r.1.value.openList == listName && r.1.value.id == JavaHash.HashCode(listName))
      && (r.1.None? ==> r.0.lists == recorded.lists - {listName})
  {
    var alarm := AlarmScheduler.AlarmFor(idOf, listName, item, iv, clock).alarm;
    var recorded := Record(rx, alarm.intent, fired);
    var rem := Reminder(alarm.trigger, iv);
    assert listName in recorded.lists && Lookup(recorded.lists[listName], item.name) == Some(rem) by {
      RecordLastWriteWins(rx, alarm.intent, fired);
    }
    assert OnReceive(rx, alarm.intent, fired) == BuildAndShow(recorded, listName, fired.nowMillis);
    RenderRecorded(recorded, listName, item.name, rem, fired.nowMillis);
  }

  /** Rendering a list that holds a reminder recent enough to show always posts a notification. */
  lemma RenderRecorded(rx: Receiver, listName: string, name: string, rem: Reminder, now: int)
    requires listName in rx.lists && Lookup(rx.lists[listName], name) == Some(rem)
    ensures var r := BuildAndShow(rx, listName, now);
      && (rem.trigger >= now - ShowWindowMillis ==> r.1.Some?)
      && (r.1.Some? ==> r.0 == rx && r.1.value.openList == listName && r.1.value.id == JavaHash.HashCode(listName))
      && (r.1.None? ==> r.0.lists == rx.lists - {listName})
  {
    var m := rx.lists[listName];
    assert (name, rem) in m;
    BuildAndShowLists(rx, listName, now);
    if rem.trigger >= now - ShowWindowMillis {
      ShownReminders(m, now);
      assert (name, rem) in Shown(m, now);
    }
  }
}
