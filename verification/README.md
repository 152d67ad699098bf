# Smart Pantry: a verified model of the reminder pipeline and the working list

Smart Pantry is an Android app that keeps lists of pantry items, each with an
expiration date, a quantity and a number of days' notice, and reminds the user
before items expire.  This project models its core in Dafny and proves
properties about it:

- **the reminder planner and reconciler** (`AlarmScheduler`): which catalogue
  intervals an item earns, the alarm ids hashed from
  "list_item_date_interval", the reconciliation of planned ids against the
  stored ones, the global index of scheduled lists, and the folder scan that
  drops deleted lists;
- **the notification aggregator** (`NotificationReceiver`): the per-list
  reminder map updated last-write-wins, the one-hour window, the ascending
  order of lines, the title and the "time left" labels;
- **item date semantics** (`Inventory`) and the ISO `yyyy-MM-dd` date codec
  (`IsoDate`) over a proleptic Gregorian calendar (`Calendar`);
- **the edit screen** (`EditViewModel`, `PackDetection`): freshness status,
  the new-item id, the digit filter, save-time validation in its fixed order
  with duplicate merging, product-name and profanity checks, and multi-pack
  quantity detection with name clean-up;
- **the working-list state** (`MyApplication`, `InventoryRepository`,
  `ListFileManager`, `MainActivity`): the two id counters, add, update and
  delete by id, the inventory snapshot, list file naming, saving, loading,
  deleting and listing, sort and search on the main screen, import file
  names, clear and load;
- **the permission prompts** (`Permissions`): which preface dialog the
  permission flow asks for.

Dates are epoch days (`int`) and times are milliseconds.  Wherever the app
reads the clock, the model takes a `Calendar.Clock`: today's date, the
current time, and `at15`, the instant of 15:00 local time on a given day (the
system time zone stays abstract).  The Android services become plain data:
`Platform.Device` holds the registered alarms as a map from request code to
alarm and the "alarm_prefs" preferences as a map from key to string set; a
folder is a sequence of file entries whose content is already decoded
(`None` for a file that is not a valid list).  Kotlin's `Int.toString` and
`toIntOrNull` are `Decimal.Show` and `Decimal.Parse`, and Java's
`String.hashCode` is computed exactly over UTF-16 units with 32-bit
wrap-around (`JavaHash`).  Supporting modules: `Wrappers` (Option, Result),
`Text` (ASCII case mapping, trimming, splitting, string order), `Sequences`
(filter, first index) and `Sorting` (a stable insertion sort standing in for
Kotlin's stable `sorted`/`sortedBy`).

## Model

| member | source | states |
|---|---|---|
| Inventory.InventoryItem.ExpSoonDate | app/src/main/java/smart/pantry/smartpantrykotlincompose/InventoryItem.kt:34-35 | the "expiring soon" date lies exactly daysNotice days before the expiration date |
| Inventory.InventoryItem.DaysUntilExpiration | app/src/main/java/smart/pantry/smartpantrykotlincompose/InventoryItem.kt:48-49 | adding the result to today lands on the expiration date, so it is negative once the date has passed |
| Inventory.InventoryItem.IsExpired | app/src/main/java/smart/pantry/smartpantrykotlincompose/InventoryItem.kt:41-42 | an item is expired exactly when no days are left until its expiration date, the expiration day included |
| Inventory.InventoryItem.IsExpiringSoon | app/src/main/java/smart/pantry/smartpantrykotlincompose/InventoryItem.kt:55-56 | expiring soon never coincides with expired, and holds exactly when between 1 and daysNotice days are left |
| Calendar.FromCivilToCivil | app/src/main/java/smart/pantry/smartpantrykotlincompose/LocalDateKSerializer.kt:26-28 | every epoch day has a year-month-day and converting that back gives the same day |
| Calendar.ToCivilFromCivil | app/src/main/java/smart/pantry/smartpantrykotlincompose/LocalDateKSerializer.kt:30-33 | every valid year-month-day survives conversion to an epoch day and back, so the day count and the calendar date are in one-to-one correspondence |
| Calendar.LeapCorrespondence | app/src/main/java/smart/pantry/smartpantrykotlincompose/LocalDateKSerializer.kt:30-33 | a March-based year has 366 days exactly when the Gregorian year holding its February is a leap year |
| Calendar.YearOfEraCorrect | app/src/main/java/smart/pantry/smartpantrykotlincompose/LocalDateKSerializer.kt:26-28 | splitting a day of a 400-year era yields a year of the era and a day inside that year's length that add back to the day |
| IsoDate.Serialize | app/src/main/java/smart/pantry/smartpantrykotlincompose/LocalDateKSerializer.kt:21-28 | for years 0000 to 9999 the text has 10 characters with '-' at positions 4 and 7 |
| IsoDate.Deserialize | app/src/main/java/smart/pantry/smartpantrykotlincompose/LocalDateKSerializer.kt:30-38 | an accepted text always denotes a real calendar date (month 1-12, day within the month's length) |
| IsoDate.DeserializeSerialize | app/src/main/java/smart/pantry/smartpantrykotlincompose/LocalDateKSerializer.kt:26-33 | a valid date in years 0000-9999 reads back as itself after being written |
| IsoDate.SerializeDeserialize | app/src/main/java/smart/pantry/smartpantrykotlincompose/LocalDateKSerializer.kt:26-33 | every accepted text is exactly the one the date it denotes is written as, so the accepted format admits one spelling per date |
| IsoDate.DeserializeRejects | app/src/main/java/smart/pantry/smartpantrykotlincompose/LocalDateKSerializer.kt:34-38 | text of the wrong length, without the two dashes or with a non-digit year yields no date, never a substituted default |
| Decimal.ParseShow | app/src/main/java/smart/pantry/smartpantrykotlincompose/AlarmScheduler.kt:169-170 | every 32-bit Int read back from its decimal text is itself (the round trip the stored alarm ids rely on) |
| Decimal.ShowInjective | app/src/main/java/smart/pantry/smartpantrykotlincompose/AlarmScheduler.kt:210-212 | distinct 32-bit Ints have distinct texts, and each text is in canonical form |
| Decimal.Parse | app/src/main/java/smart/pantry/smartpantrykotlincompose/EditViewModel.kt:316-330 | whatever text is accepted denotes a 32-bit Int |
| JavaHash.HashCodeIsPolynomial | app/src/main/java/smart/pantry/smartpantrykotlincompose/AlarmScheduler.kt:276-278 | the hash computed unit by unit with wrap-around equals the polynomial sum of the UTF-16 units times powers of 31, reduced to a signed 32-bit Int |
| JavaHash.Wrap32 | app/src/main/java/smart/pantry/smartpantrykotlincompose/AlarmScheduler.kt:276-278 | the wrapped value is a signed 32-bit Int congruent to the input modulo 2^32 |
| AlarmScheduler.AlarmsKey | app/src/main/java/smart/pantry/smartpantrykotlincompose/AlarmScheduler.kt:85 | a list's key is "alarms_" followed by the list name and never collides with the global index key |
| AlarmScheduler.AlarmsKeyInjective | app/src/main/java/smart/pantry/smartpantrykotlincompose/AlarmScheduler.kt:85 | different list names have different alarm keys |
| AlarmScheduler.CatalogueShape | app/src/main/java/smart/pantry/smartpantrykotlincompose/AlarmScheduler.kt:23-45 | the catalogue holds 20 strictly ascending intervals whose last ten are one to ten years of 365 days |
| AlarmScheduler.SortingKeepsCatalogue | app/src/main/java/smart/pantry/smartpantrykotlincompose/AlarmScheduler.kt:23-45 | sorting the catalogue as written leaves it unchanged |
| AlarmScheduler.AlarmId | app/src/main/java/smart/pantry/smartpantrykotlincompose/AlarmScheduler.kt:276-278 | every alarm id is a signed 32-bit Int |
| AlarmScheduler.FittingIntervals | app/src/main/java/smart/pantry/smartpantrykotlincompose/AlarmScheduler.kt:149-168 | an interval is kept exactly when it is offered and the item is unexpired, inside its notice window, the interval fits both notice and days left, and its 15:00 trigger is later than five minutes ago |
| AlarmScheduler.ItemIntervals | app/src/main/java/smart/pantry/smartpantrykotlincompose/AlarmScheduler.kt:141-168 | an expired item gets no interval; otherwise the intervals are exactly the qualifying catalogue entries |
| AlarmScheduler.PlanListMembers | app/src/main/java/smart/pantry/smartpantrykotlincompose/AlarmScheduler.kt:141-207 | an alarm is planned for a list exactly when some item of the list has a qualifying interval producing that alarm |
| AlarmScheduler.ExpiredItemPlansNothing | app/src/main/java/smart/pantry/smartpantrykotlincompose/AlarmScheduler.kt:142-144 | an expired item contributes no alarm |
| AlarmScheduler.ItemIdsIgnoreIdCodeQuantity | app/src/main/java/smart/pantry/smartpantrykotlincompose/AlarmScheduler.kt:169 | changing an item's id, code or quantity leaves the set of alarm ids planned for it unchanged |
| AlarmScheduler.RegisterIsMerge | app/src/main/java/smart/pantry/smartpantrykotlincompose/AlarmScheduler.kt:172-194 | registering the plan overrides existing timers at exactly the planned ids and leaves every other timer |
| AlarmScheduler.RegisterLastWins | app/src/main/java/smart/pantry/smartpantrykotlincompose/AlarmScheduler.kt:182-194 | when two planned alarms share an id the later one is the one registered |
| AlarmScheduler.StaleIds | app/src/main/java/smart/pantry/smartpantrykotlincompose/AlarmScheduler.kt:210-212 | the ids cancelled as stale are exactly the previously stored ids minus the planned ids |
| AlarmScheduler.ScheduleAlarmsForList | app/src/main/java/smart/pantry/smartpantrykotlincompose/AlarmScheduler.kt:82-236 | without either permission or with an undecodable file nothing changes; otherwise the list's stored set becomes exactly the planned ids, the list joins the index, and no other preference changes |
| AlarmScheduler.ScheduleReconciles | app/src/main/java/smart/pantry/smartpantrykotlincompose/AlarmScheduler.kt:141-228 | after a pass the timers are the old timers minus the stale ids, overridden by exactly the planned alarms |
| AlarmScheduler.ScheduleKeepsCanonical | app/src/main/java/smart/pantry/smartpantrykotlincompose/AlarmScheduler.kt:169-170 | a pass only ever stores ids written in canonical decimal form |
| AlarmScheduler.ScheduleIdempotent | app/src/main/java/smart/pantry/smartpantrykotlincompose/AlarmScheduler.kt:82-236 | a second pass with the same list, clock and permissions changes nothing |
| AlarmScheduler.CancelAlarmsForList | app/src/main/java/smart/pantry/smartpantrykotlincompose/AlarmScheduler.kt:238-263 | the list's stored timers are cancelled, its key removed and its name dropped from the index; every other preference is left alone |
| AlarmScheduler.CancelLists | app/src/main/java/smart/pantry/smartpantrykotlincompose/AlarmScheduler.kt:66-73 | cancelling a set of lists removes each one's key, drops them from the index and cancels all their stored ids, whatever the order |
| AlarmScheduler.CancelEachIsCancelLists | app/src/main/java/smart/pantry/smartpantrykotlincompose/AlarmScheduler.kt:66-73 | cancelling lists one by one in any order has the same effect as cancelling the set at once |
| AlarmScheduler.CancelAllAlarms | app/src/main/java/smart/pantry/smartpantrykotlincompose/AlarmScheduler.kt:265-274 | every indexed list's key and timers are removed and the index itself disappears; other preferences stay |
| AlarmScheduler.ListFiles | app/src/main/java/smart/pantry/smartpantrykotlincompose/AlarmScheduler.kt:60-62 | the scan picks exactly the regular files whose name ends in ".json", case-sensitively |
| AlarmScheduler.ScheduleAllDropsDeletedLists | app/src/main/java/smart/pantry/smartpantrykotlincompose/AlarmScheduler.kt:47-80 | after a full pass no index entry or alarm key remains for a list whose file is gone, and the index names only present list files |
| AlarmScheduler.ScheduleAllWithoutFolder | app/src/main/java/smart/pantry/smartpantrykotlincompose/AlarmScheduler.kt:53-58 | without the folder every indexed list is cancelled and the index removed |
| AlarmScheduler.ScheduleAllKeepsCanonical | app/src/main/java/smart/pantry/smartpantrykotlincompose/AlarmScheduler.kt:47-80 | a full pass keeps every stored id set in canonical decimal form |
| AlarmScheduler.ListFilesDistinct | app/src/main/java/smart/pantry/smartpantrykotlincompose/AlarmScheduler.kt:60-64 | in a folder with one entry per name, the scanned list files are determined by their names |
| AlarmScheduler.ScheduleEachAbsorbs | app/src/main/java/smart/pantry/smartpantrykotlincompose/AlarmScheduler.kt:75-79 | with both permissions, after scheduling every file each file's stored ids are exactly the ids planned for it and its name is indexed |
| AlarmScheduler.ScheduleEachOnAbsorbed | app/src/main/java/smart/pantry/smartpantrykotlincompose/AlarmScheduler.kt:75-79 | scheduling files whose planned ids are already stored and indexed leaves the preferences unchanged |
| AlarmScheduler.ScheduleAllPrefsIdempotent | app/src/main/java/smart/pantry/smartpantrykotlincompose/AlarmScheduler.kt:47-80 | a second full pass over the same folder, clock and permissions leaves the stored ids and index unchanged, and without the folder or permissions changes nothing at all |
| AlarmScheduler.RepeatedPassCanRestoreAlarm | app/src/main/java/smart/pantry/smartpantrykotlincompose/AlarmScheduler.kt:47-80 | when a list still stores an id another list now plans, the first pass cancels that alarm and a second pass registers it again, so the alarms of a full pass are not idempotent |
| NotificationReceiver.FormatTimeLeftCountsUnits | app/src/main/java/smart/pantry/smartpantrykotlincompose/NotificationReceiver.kt:44-55 | the label counts whole days, weeks, months or years, naming the largest unit that fits, n whole units with n*unit <= days < (n+1)*unit, singular exactly for one |
| NotificationReceiver.UnitFor | app/src/main/java/smart/pantry/smartpantrykotlincompose/NotificationReceiver.kt:44-55 | the unit is one of (1, day), (7, week), (30, month), (365, year), never exceeds the day count, and no listed unit that fits is longer |
| NotificationReceiver.Lookup | app/src/main/java/smart/pantry/smartpantrykotlincompose/NotificationReceiver.kt:107-111 | finds a recorded reminder for a name exactly when one is recorded |
| NotificationReceiver.Put | app/src/main/java/smart/pantry/smartpantrykotlincompose/NotificationReceiver.kt:107-111 | after recording, the name maps to the new reminder, every other name maps as before, and names stay unique |
| NotificationReceiver.RecordLastWriteWins | app/src/main/java/smart/pantry/smartpantrykotlincompose/NotificationReceiver.kt:93-111 | a firing sets the item's reminder to (15:00 on expiration minus interval, interval), interval defaulting to 0, and changes no other item or list |
| NotificationReceiver.OnReceive | app/src/main/java/smart/pantry/smartpantrykotlincompose/NotificationReceiver.kt:57-121 | a foreign action or an undecodable item leaves the receiver unchanged and shows nothing; a shown notification opens the firing list |
| NotificationReceiver.BuildAndShow | app/src/main/java/smart/pantry/smartpantrykotlincompose/NotificationReceiver.kt:127-235 | a missing or empty list shows nothing; a shown notification has an id depending only on the list name and leaves the map unpruned |
| NotificationReceiver.BuildAndShowLists | app/src/main/java/smart/pantry/smartpantrykotlincompose/NotificationReceiver.kt:150-197 | nothing is shown (and the list is forgotten) exactly when no reminder is recent; otherwise one line per recent reminder under the "N Item(s) in <list without .json> expiring soon!" title |
| NotificationReceiver.ShownReminders | app/src/main/java/smart/pantry/smartpantrykotlincompose/NotificationReceiver.kt:150-154 | the lines list exactly the reminders triggered at most an hour ago or later, each as often as recorded |
| NotificationReceiver.ShownOrder | app/src/main/java/smart/pantry/smartpantrykotlincompose/NotificationReceiver.kt:165-167 | lines are in ascending trigger order, and reminders with equal triggers keep their recorded order |
| NotificationReceiver.FiringPlannedAlarm | app/src/main/java/smart/pantry/smartpantrykotlincompose/NotificationReceiver.kt:93-111 | when an alarm the scheduler planned fires on a clock with the same 15:00 instants, its item's reminder is the alarm's own trigger and interval under its list; a trigger within the last hour always produces a notification that opens that list, and showing nothing drops the list's reminders |
| NotificationReceiver.RenderRecorded | app/src/main/java/smart/pantry/smartpantrykotlincompose/NotificationReceiver.kt:150-160 | a list holding a reminder triggered within the last hour is always rendered, keeping the map; otherwise rendering nothing forgets the list |
| Permissions.CheckExactAlarm | app/src/main/java/smart/pantry/smartpantrykotlincompose/NotificationPermissionHelper.kt:92-112 | the exact-alarm preface is offered exactly on Android 12+ without exact-alarm permission when forced or not opted out |
| Permissions.StartPermissionFlow | app/src/main/java/smart/pantry/smartpantrykotlincompose/NotificationPermissionHelper.kt:35-60 | no prompt while a request is in progress or when opted out unforced; otherwise the notifications preface when not granted, else the exact-alarm check |
| Permissions.HandlePermissionResult | app/src/main/java/smart/pantry/smartpantrykotlincompose/NotificationPermissionHelper.kt:66-90 | the guard is always cleared; a grant leads to the unforced exact-alarm check, a denial shows no prompt and opens settings exactly when no rationale is due |
| Permissions.CanScheduleByLevel | app/src/main/java/smart/pantry/smartpantrykotlincompose/NotificationPermissionHelper.kt:129-146 | scheduling is always allowed below Android 12, needs the exact-alarm permission on Android 12, and needs that and the notification permission from Android 13 on |
| Permissions.OnResume | app/src/main/java/smart/pantry/smartpantrykotlincompose/NotificationPermissionHelper.kt:161-174 | resuming always clears the request guard |
| Permissions.GuardNeverSet | app/src/main/java/smart/pantry/smartpantrykotlincompose/NotificationPermissionHelper.kt:35-90 | over any sequence of starts, results and resumes the in-progress guard is never set |
| Permissions.StartNeverBlockedByGuard | app/src/main/java/smart/pantry/smartpantrykotlincompose/NotificationPermissionHelper.kt:35-60 | in any reachable state a start shows nothing exactly when opted out unforced or nothing is missing to ask for |
| EditViewModel.Freshness | app/src/main/java/smart/pantry/smartpantrykotlincompose/EditViewModel.kt:35-47 | no date is safe; with a date, the status is expired exactly when the date is today or earlier, and use-now exactly when between 1 and the parsed notice (0 if it does not parse) days are left |
| EditViewModel.FreshnessOfItem | app/src/main/java/smart/pantry/smartpantrykotlincompose/EditViewModel.kt:35-47 | for a stored item the status agrees with the item's own expired and expiring-soon properties |
| EditViewModel.UnparsedNoticeIsZero | app/src/main/java/smart/pantry/smartpantrykotlincompose/EditViewModel.kt:40 | a notice that does not parse counts as 0 days |
| EditViewModel.FreshnessOfParsedNotice | app/src/main/java/smart/pantry/smartpantrykotlincompose/EditViewModel.kt:40 | any notice text that parses to n gives the same status as n written out, so only the parsed value matters |
| EditViewModel.FreshnessNoticeMonotone | app/src/main/java/smart/pantry/smartpantrykotlincompose/EditViewModel.kt:42-46 | lengthening the notice can turn safe into use-now but never use-now into safe |
| EditViewModel.Init | app/src/main/java/smart/pantry/smartpantrykotlincompose/EditViewModel.kt:62-79 | a new item takes the counter as its id, bumps the counter by one and is dated today; an edit loads the item's fields as text and leaves the counter |
| EditViewModel.NewItemIdIsFresh | app/src/main/java/smart/pantry/smartpantrykotlincompose/EditViewModel.kt:74-78 | when the counter is above every id the new item's id is unused and the counter stays above every id |
| EditViewModel.DigitsOnlyLimit | app/src/main/java/smart/pantry/smartpantrykotlincompose/EditViewModel.kt:253 | the result is all digits, a prefix of the input's digits, and as long as the digits or maxLen, whichever is smaller |
| EditViewModel.DigitsOnlyLimitKeepsDigits | app/src/main/java/smart/pantry/smartpantrykotlincompose/EditViewModel.kt:253 | short digit text passes unchanged, and filtering twice is filtering once |
| EditViewModel.DigitsOnlyLimitIgnoresOthers | app/src/main/java/smart/pantry/smartpantrykotlincompose/EditViewModel.kt:253 | inserting a non-digit anywhere does not change the result |
| EditViewModel.Normalize | app/src/main/java/smart/pantry/smartpantrykotlincompose/EditViewModel.kt:137-140 | the normalised text holds only lowercase letters, digits and single inner spaces |
| EditViewModel.NormalizeIgnoresCase | app/src/main/java/smart/pantry/smartpantrykotlincompose/EditViewModel.kt:137-140 | normalising lowercased text gives the same result |
| EditViewModel.SplitLeet | app/src/main/java/smart/pantry/smartpantrykotlincompose/EditViewModel.kt:150-160 | substituting then splitting equals splitting then substituting each word |
| EditViewModel.LeetWordsListed | app/src/main/java/smart/pantry/smartpantrykotlincompose/EditViewModel.kt:160-164 | a substituted word is listed exactly when some word's substitution is listed |
| EditViewModel.ContainsProfanity | app/src/main/java/smart/pantry/smartpantrykotlincompose/EditViewModel.kt:121-183 | blocks everything before the list loads, allows everything with an empty list, and otherwise flags exactly when a word, its substitution, or a long embedded listed word above half its length is found |
| EditViewModel.ListedWordIsCaught | app/src/main/java/smart/pantry/smartpantrykotlincompose/EditViewModel.kt:143-147 | a single alphanumeric word listed in lowercase is always flagged |
| EditViewModel.RepeatRunInContext | app/src/main/java/smart/pantry/smartpantrykotlincompose/EditViewModel.kt:196 | a run of five identical characters is still found inside any surrounding text |
| EditViewModel.RepeatedCharacterRun | app/src/main/java/smart/pantry/smartpantrykotlincompose/EditViewModel.kt:196 | a text of one repeated character contains a run exactly when it is at least five long and the character is not a line terminator |
| EditViewModel.ValidateProductName | app/src/main/java/smart/pantry/smartpantrykotlincompose/EditViewModel.kt:185-206 | the message reported is that of the first failing check in the order length in UTF-16 units below 2, above 200, fewer than two letters, a run of five, profanity; each message is given exactly when its check is the first to fail, and none exactly when all pass |
| EditViewModel.Utf16LengthCounts | app/src/main/java/smart/pantry/smartpantrykotlincompose/EditViewModel.kt:187-188 | a character outside the BMP adds two to the length, any other one; text without such characters has its character count as length |
| EditViewModel.NothingSharedBeforeListLoads | app/src/main/java/smart/pantry/smartpantrykotlincompose/EditViewModel.kt:124-128 | no name is accepted for sharing before the word list is loaded |
| EditViewModel.CheckedDate | app/src/main/java/smart/pantry/smartpantrykotlincompose/EditViewModel.kt:269-313 | with perishables on a missing date is an error; with them off a date is always produced, either the entered one or today |
| EditViewModel.PresentDateAccepted | app/src/main/java/smart/pantry/smartpantrykotlincompose/EditViewModel.kt:278-313 | an entered date always passes with perishables on, and with them off survives exactly when its year is 2000-2100 |
| EditViewModel.NoticeText | app/src/main/java/smart/pantry/smartpantrykotlincompose/EditViewModel.kt:323-325 | the notice is only replaced when blank with perishables on, and then by "60" |
| EditViewModel.AddInt | app/src/main/java/smart/pantry/smartpantrykotlincompose/EditViewModel.kt:358-360 | Int addition is exact whenever the sum fits in 32 bits |
| EditViewModel.SaveItem | app/src/main/java/smart/pantry/smartpantrykotlincompose/EditViewModel.kt:256-381 | the first failing check among name, date, quantity and notice is reported with nothing stored; success stores the item built from the trimmed fields, merging a new duplicate or updating an edit |
| EditViewModel.SaveItemMessages | app/src/main/java/smart/pantry/smartpantrykotlincompose/EditViewModel.kt:260-330 | every rejection is one of the six messages, and a bad notice is never reported for a blank notice with perishables on |
| EditViewModel.MergeReplacesDuplicate | app/src/main/java/smart/pantry/smartpantrykotlincompose/EditViewModel.kt:346-363 | a new item matching an existing one by name and code ignoring case and date replaces that entry in place with the quantities added |
| EditViewModel.StoreNewAddsQuantity | app/src/main/java/smart/pantry/smartpantrykotlincompose/EditViewModel.kt:346-367 | storing a new item raises the total quantity by its quantity, and adds an entry only when there is no duplicate |
| EditViewModel.StoreNewKeepsDistinct | app/src/main/java/smart/pantry/smartpantrykotlincompose/EditViewModel.kt:346-367 | storing a new item keeps ids unique and never creates two duplicate entries |
| EditViewModel.EditWithoutChangesKeepsList | app/src/main/java/smart/pantry/smartpantrykotlincompose/EditViewModel.kt:62-73 | with perishables on, opening a trimmed item with a positive quantity for editing and saving it without changes leaves the list as it was |
| EditViewModel.LoadedFormSavesItem | app/src/main/java/smart/pantry/smartpantrykotlincompose/EditViewModel.kt:368-371 | saving an unchanged edit form rebuilds exactly the loaded item and updates it in place |
| EditViewModel.DeleteItem | app/src/main/java/smart/pantry/smartpantrykotlincompose/EditViewModel.kt:383-394 | a new form or an unknown id deletes nothing; otherwise exactly one entry goes |
| EditViewModel.DeleteItemRemovesId | app/src/main/java/smart/pantry/smartpantrykotlincompose/EditViewModel.kt:383-394 | with unique ids, deleting removes exactly the entry with the form's id and keeps every other in order |
| PackDetection.MatchAt | app/src/main/java/smart/pantry/smartpantrykotlincompose/EditActivity.kt:91-103 | a match starts where asked, ends within the text and captures a non-empty run of digits |
| PackDetection.FindFrom | app/src/main/java/smart/pantry/smartpantrykotlincompose/EditActivity.kt:222-223 | the match found is the leftmost one from the start position |
| PackDetection.RemoveAll | app/src/main/java/smart/pantry/smartpantrykotlincompose/EditActivity.kt:203-205 | removal never lengthens the text and changes it exactly when the pattern occurs |
| PackDetection.ExtractQuantity | app/src/main/java/smart/pantry/smartpantrykotlincompose/EditActivity.kt:219-235 | no name yields no quantity, and any quantity found lies in 1..999 |
| PackDetection.QuantityFromFirstInRange | app/src/main/java/smart/pantry/smartpantrykotlincompose/EditActivity.kt:222-234 | the quantity comes from the first pattern whose first match is in range, and there is none exactly when no pattern's first match is |
| PackDetection.OutOfRangeFirstMatchSkipsPattern | app/src/main/java/smart/pantry/smartpantrykotlincompose/EditActivity.kt:224-230 | an out-of-range first match skips its pattern even when a later match of it would be in range |
| PackDetection.CollapseSpaces | app/src/main/java/smart/pantry/smartpantrykotlincompose/EditActivity.kt:208 | every whitespace character left is a plain space, no two are adjacent, and the result starts with whitespace exactly when the input does |
| PackDetection.CollapseKeepsText | app/src/main/java/smart/pantry/smartpantrykotlincompose/EditActivity.kt:208 | collapsing keeps every non-whitespace character in order |
| PackDetection.DropTrailingSeparator | app/src/main/java/smart/pantry/smartpantrykotlincompose/EditActivity.kt:209 | a prefix is cut exactly at a trailing comma or dash followed only by whitespace, and nothing is cut without one |
| PackDetection.ExtractPackInfo | app/src/main/java/smart/pantry/smartpantrykotlincompose/EditActivity.kt:197-216 | there is a result exactly when a quantity is found, carrying the original name and that quantity |
| PackDetection.CleanNameShape | app/src/main/java/smart/pantry/smartpantrykotlincompose/EditActivity.kt:200-210 | the cleaned name is single-spaced and starts and ends with a non-whitespace character |
| MyApplication.MaxId | app/src/main/java/smart/pantry/smartpantrykotlincompose/MyApplication.kt:88 | the result is the largest item id, or 0 for no items |
| MyApplication.SetNextID | app/src/main/java/smart/pantry/smartpantrykotlincompose/MyApplication.kt:186-190 | the counter ends above the given id, never decreases, and is either unchanged or the given id plus one |
| MyApplication.SetNextIDIsLeast | app/src/main/java/smart/pantry/smartpantrykotlincompose/MyApplication.kt:186-190 | the counter set is the least value above both the given id and the old counter |
| MyApplication.GetNextID | app/src/main/java/smart/pantry/smartpantrykotlincompose/MyApplication.kt:180-183 | the counter is increased first and the increased value handed out |
| MyApplication.LoadList | app/src/main/java/smart/pantry/smartpantrykotlincompose/MyApplication.kt:75-93 | the list's items and flag become the working state (flag persisted too) and the counter becomes the least value that is at least the old counter and above every loaded id |
| MyApplication.GetInventoryItemById | app/src/main/java/smart/pantry/smartpantrykotlincompose/MyApplication.kt:225-227 | the result is the first item with the id, and none exactly when no item has it |
| MyApplication.ScheduleAlarmsIfAllowed | app/src/main/java/smart/pantry/smartpantrykotlincompose/MyApplication.kt:145-156 | without both permissions nothing changes; the pass never touches the working state or the folder |
| MyApplication.ScheduleAlarmsIfAllowedTracksFolder | app/src/main/java/smart/pantry/smartpantrykotlincompose/MyApplication.kt:145-156 | with both permissions the index afterwards names only present list files, and without the folder it is gone |
| MyApplication.SaveWorkingList | app/src/main/java/smart/pantry/smartpantrykotlincompose/MyApplication.kt:110-121 | writing over a directory throws before scheduling, so nothing changes; the working state is never changed and without both permissions no alarm bookkeeping changes |
| MyApplication.SaveWorkingListStores | app/src/main/java/smart/pantry/smartpantrykotlincompose/MyApplication.kt:110-121 | the saved file reads back as the working items under the working perishables flag |
| MyApplication.DeleteSavedList | app/src/main/java/smart/pantry/smartpantrykotlincompose/MyApplication.kt:129-137 | a scheduling pass follows only a deletion reporting success; otherwise the alarms and files are untouched |
| MyApplication.UpperCaseExtensionListedNotScheduled | app/src/main/java/smart/pantry/smartpantrykotlincompose/MyApplication.kt:110-121 | a list saved under a name ending ".JSON" is listed among saved lists but never indexed by the scheduling pass that follows |
| InventoryRepository.SaveInventory | app/src/main/java/smart/pantry/smartpantrykotlincompose/InventoryRepository.kt:59-82 | the snapshot holds the current items and counter and nothing else changes |
| InventoryRepository.AddItem | app/src/main/java/smart/pantry/smartpantrykotlincompose/InventoryRepository.kt:141-152 | the item is appended exactly when its id is not taken; otherwise the list is unchanged; a snapshot is saved either way |
| InventoryRepository.AddItemKeepsIdsUnique | app/src/main/java/smart/pantry/smartpantrykotlincompose/InventoryRepository.kt:141-152 | adding keeps ids unique |
| InventoryRepository.UpdateItem | app/src/main/java/smart/pantry/smartpantrykotlincompose/InventoryRepository.kt:158-172 | an absent id changes nothing; otherwise the first item with the id is replaced in place and a snapshot saved |
| InventoryRepository.UpdateThenGet | app/src/main/java/smart/pantry/smartpantrykotlincompose/InventoryRepository.kt:158-172 | after an update, looking its id up finds the updated item |
| InventoryRepository.UpdateKeepsOtherLookups | app/src/main/java/smart/pantry/smartpantrykotlincompose/InventoryRepository.kt:158-172 | an update leaves the lookup of every other id as it was |
| InventoryRepository.DeleteItem | app/src/main/java/smart/pantry/smartpantrykotlincompose/InventoryRepository.kt:178-185 | exactly one occurrence of an equal item is removed when present, nothing otherwise |
| InventoryRepository.DeleteItemRemovesFirst | app/src/main/java/smart/pantry/smartpantrykotlincompose/InventoryRepository.kt:178-185 | the occurrence removed is the first one, and the remaining items keep their order |
| InventoryRepository.GetNextID | app/src/main/java/smart/pantry/smartpantrykotlincompose/InventoryRepository.kt:193-195 | the old counter is handed out and the counter increased by one |
| InventoryRepository.CountersDisagree | app/src/main/java/smart/pantry/smartpantrykotlincompose/InventoryRepository.kt:193-195 | the repository and the application counters end equal but hand out values one apart |
| InventoryRepository.DrawnIdIsFresh | app/src/main/java/smart/pantry/smartpantrykotlincompose/InventoryRepository.kt:141-152 | an id drawn from a counter above every id is unused, and adding the item keeps the counter above every id |
| InventoryRepository.LoadInventory | app/src/main/java/smart/pantry/smartpantrykotlincompose/InventoryRepository.kt:90-133 | success exactly when a snapshot decodes; failure clears the items with counter 1; success restores items and the stored counter |
| InventoryRepository.SaveThenLoadInventory | app/src/main/java/smart/pantry/smartpantrykotlincompose/InventoryRepository.kt:59-133 | loading the snapshot just saved restores the saved items and counter |
| InventoryRepository.StoredCounterCanCollide | app/src/main/java/smart/pantry/smartpantrykotlincompose/InventoryRepository.kt:105-116 | a snapshot whose counter is not above its ids restores a state whose next id collides with an item |
| InventoryRepository.DeleteList | app/src/main/java/smart/pantry/smartpantrykotlincompose/InventoryRepository.kt:211-225 | a missing file counts as success; an existing file's result is whether it was deleted; a deletion removes exactly the first entry of that name and keeps every entry of another name |
| InventoryRepository.DeleteLeavesNoEntry | app/src/main/java/smart/pantry/smartpantrykotlincompose/InventoryRepository.kt:211-225 | with one entry per name, a delete reporting success leaves no entry of that name |
| ListFileManager.ListFileName | app/src/main/java/smart/pantry/smartpantrykotlincompose/ListFileManager.kt:61-65 | the resolved name ends in ".json" in some case and is the name itself or the name plus ".json" |
| ListFileManager.ListFileNameKeepsExtension | app/src/main/java/smart/pantry/smartpantrykotlincompose/ListFileManager.kt:63 | a name is used as is exactly when it already ends in ".json" ignoring case |
| ListFileManager.ListFileNameIdempotent | app/src/main/java/smart/pantry/smartpantrykotlincompose/ListFileManager.kt:63 | resolving a resolved name changes nothing |
| ListFileManager.LoadList | app/src/main/java/smart/pantry/smartpantrykotlincompose/ListFileManager.kt:74-84 | a missing file yields nothing, and a list read comes from a regular file of the resolved name |
| ListFileManager.SaveThenLoad | app/src/main/java/smart/pantry/smartpantrykotlincompose/ListFileManager.kt:69-84 | loading what was just saved gives it back and every list of another resolved name reads as before |
| ListFileManager.DeleteList | app/src/main/java/smart/pantry/smartpantrykotlincompose/ListFileManager.kt:86-89 | success exactly when the resolved file exists and the platform deletes it; success removes exactly the first entry of the resolved name and keeps every entry of another name; a failure leaves the folder alone |
| ListFileManager.DeleteThenLoad | app/src/main/java/smart/pantry/smartpantrykotlincompose/ListFileManager.kt:74-89 | with one entry per name, a list deleted successfully no longer loads, and every list of another resolved name loads as before |
| ListFileManager.ListSavedListsContents | app/src/main/java/smart/pantry/smartpantrykotlincompose/ListFileManager.kt:91-96 | the listing holds the base names of exactly the regular files with a "json" extension in any case, each as often as it occurs, sorted ascending |
| MainActivity.Criterion | app/src/main/java/smart/pantry/smartpantrykotlincompose/MainActivity.kt:448-456 | exactly the seven menu criteria are recognised, and exactly "Z-A", "New-Old" and "Most-Least" sort descending |
| MainActivity.TiedIffSameKey | app/src/main/java/smart/pantry/smartpantrykotlincompose/MainActivity.kt:448-456 | two items compare equal under a criterion exactly when they agree on its key |
| MainActivity.SortItems | app/src/main/java/smart/pantry/smartpantrykotlincompose/MainActivity.kt:441-461 | the result is a permutation of the list, sorted by the criterion's key, and an unknown criterion keeps the order |
| MainActivity.SortItemsStable | app/src/main/java/smart/pantry/smartpantrykotlincompose/MainActivity.kt:448-456 | items with equal keys keep their relative order |
| MainActivity.SortItemsIdempotent | app/src/main/java/smart/pantry/smartpantrykotlincompose/MainActivity.kt:441-461 | sorting a sorted list by the same criterion changes nothing |
| MainActivity.SortKeepsCounterAhead | app/src/main/java/smart/pantry/smartpantrykotlincompose/MainActivity.kt:441-461 | sorting keeps the counter above every id |
| MainActivity.FilterItems | app/src/main/java/smart/pantry/smartpantrykotlincompose/MainActivity.kt:379-394 | a blank search shows the whole list; otherwise an item is shown exactly when its lowercased name or code contains the lowercased search, and only list items are shown |
| MainActivity.FilterItemsAppend | app/src/main/java/smart/pantry/smartpantrykotlincompose/MainActivity.kt:385-391 | searching a concatenation searches each part in order |
| MainActivity.FilterItemsIdempotent | app/src/main/java/smart/pantry/smartpantrykotlincompose/MainActivity.kt:379-394 | searching the results again with the same text changes nothing |
| MainActivity.FilterItemsIgnoresCase | app/src/main/java/smart/pantry/smartpantrykotlincompose/MainActivity.kt:379-394 | searching for the lowercased text gives the same results |
| MainActivity.NameSearchFindsItem | app/src/main/java/smart/pantry/smartpantrykotlincompose/MainActivity.kt:385-391 | searching for an item's name in any case finds it |
| MainActivity.SortThenFilterSameItems | app/src/main/java/smart/pantry/smartpantrykotlincompose/MainActivity.kt:379-461 | sorting before searching changes the order of the results but not which items appear nor how often |
| MainActivity.StripJsonExtension | app/src/main/java/smart/pantry/smartpantrykotlincompose/MainActivity.kt:157-171 | a name ending in ".json" ignoring case loses exactly those five characters; any other name is kept |
| MainActivity.ExtractFilename | app/src/main/java/smart/pantry/smartpantrykotlincompose/MainActivity.kt:148-172 | the display name wins when present, then the last path segment, then "imported_list" |
| MainActivity.StripAfterListFileName | app/src/main/java/smart/pantry/smartpantrykotlincompose/MainActivity.kt:157-171 | stripping the name a list file is saved under gives back the list name |
| MainActivity.ListFileNameAfterStrip | app/src/main/java/smart/pantry/smartpantrykotlincompose/MainActivity.kt:157-171 | a file ending in lowercase ".json" is saved back under the same file name after stripping |
| MainActivity.ClearList | app/src/main/java/smart/pantry/smartpantrykotlincompose/MainActivity.kt:1053-1100 | clearing empties the list and sets the counter to 0, leaving the perishables settings |
| MainActivity.LoadFromScreen | app/src/main/java/smart/pantry/smartpantrykotlincompose/MainActivity.kt:1209-1220 | a list that fails to load changes nothing; a loaded list's items and flag become the working state and the counter becomes the least value that is at least the old counter and above every loaded id |
| MainActivity.SaveThenLoadFromScreen | app/src/main/java/smart/pantry/smartpantrykotlincompose/MainActivity.kt:1209-1220 | loading a list just saved under a writable name restores the working items and flag |

## Behaviour the model exhibits

These are properties of the app as written, each proved by the member named:

- `InventoryRepository.CountersDisagree`: the repository's `getNextID` hands
  out the counter before incrementing, the application's after, so the two
  draw different ids from the same state.
- `InventoryRepository.StoredCounterCanCollide`: `loadInventory` lets the
  stored counter override the one `setNextID` derived from the items.
- `AlarmScheduler.RepeatedPassCanRestoreAlarm`: a full scheduling pass is
  not idempotent on the registered alarms when two lists' alarms share an id
  (alarm ids are 32-bit hashes): a list still storing the id cancels, as
  stale, the alarm another list registered earlier in the same pass, and the
  next pass registers it again.  The stored ids and the index are idempotent
  (`AlarmScheduler.ScheduleAllPrefsIdempotent`).
- `MyApplication.UpperCaseExtensionListedNotScheduled`: the saved-list
  listing matches the extension ignoring case, the scheduler's scan does not.
- `EditViewModel.PresentDateAccepted`: with perishables on, the month and day
  checks of `saveItem` can never fail for a date that exists, so only the
  missing-date message is reachable.
- `Permissions.GuardNeverSet`: nothing ever sets `sRequestInProgress`, so the
  in-progress check of `startPermissionFlow` never blocks a prompt.
- `MainActivity.ClearList`: clearing resets the counter to 0 instead of
  leaving it where it was; with the list empty every id is still below it
  (`MainActivity.ClearThenDraw`).
- The notification title drops the last five characters of the list name
  whatever they are (`Text.DropLast` in `NotificationReceiver.BuildAndShowLists`);
  list files are scanned by their ".json" name, so this strips the extension.

## Left out

- JSON encoding and decoding of items, lists and the inventory snapshot: a
  decoded file or extra is an `Option` (or `Repo.file` content), and a
  payload that fails to decode is `None`.
- File system failures other than those the source reports: directory
  creation, write errors and the exceptions `saveInventory` logs.
- The system time zone: `Clock.at15` is an arbitrary function from day to
  milliseconds, and no property needs it to be monotone.
- Concurrency: coroutines, dispatchers, the `@Volatile` guard and the
  `ConcurrentHashMap` of reminders, whose iteration order is unspecified; the
  model keeps each list's reminders in insertion order.
- Android services beyond their effect as data: `PendingIntent` matching
  (an alarm is identified by its request code; cancelling an unknown code is
  a no-op), notification channels, `Log`, toasts and the Compose UI,
  including `getExpirationColor`.
- The network: the profanity word list is an input (`WordList`), and the
  shared product database (`saveToSharedDatabase`, `wasNameManuallyEntered`)
  and product look-ups are not modelled.
- `BootReceiver`, `AlarmRescheduleWorker` and the backup/export screens,
  which only call into the modelled operations or the network.
- `handleImportedList`, `loadListFromUri`, `clearAllFiles`,
  `getSavedListNames`, `filteredList` and the repository's own
  `getListFile`: UI state plumbing or file helpers with no logic beyond the
  modelled ones.
- `checkAndScheduleOnResume` has its scheduling call commented out in the
  source; `Permissions.OnResume` models what remains (clearing the guard).
- Character classes and case mapping are ASCII only: `isLetter`, `isDigit`,
  `isWhitespace` and `lowercase` agree with Kotlin on ASCII text, and
  `Text.LexLe` compares characters rather than UTF-16 units (the two differ
  only for characters outside the Basic Multilingual Plane).
- Kotlin `Int` overflow is modelled where the source adds (`EditViewModel.AddInt`
  for merged quantities) and in the hash; elsewhere numbers are unbounded.
- IsoDate.Deserialize: accepts only four-digit years 0000-9999, while
  `LocalDate.parse` also accepts signed years with more digits; the round
  trips are stated for that range.
- PackDetection.CleanNameShape: states the shape of the cleaned name
  (single-spaced and trimmed), not that no pattern occurrence survives, since
  cutting a match out can join text into a new one.
- PackDetection.MatchAt: the three pattern shapes are matched by a concrete
  matcher (maximal digit and space runs, ASCII case-insensitive words, an
  ASCII word boundary), not by a general regular-expression engine.
  Case is ignored for ASCII letters only, while the platform's
  case-insensitive matching also folds the Kelvin sign onto "k" and the long
  s onto "s", so a name spelling "pack" with those is not detected here.
- PackDetection.DropTrailingSeparator: `$` is taken as the end of the text;
  the platform's `$` also matches before a final line terminator, which
  differs only for a name ending in U+0085, U+2028 or U+2029.
- EditViewModel.ContainsProfanity: the source's floating-point test
  `p.length / w.length > 0.5` is stated as `2 * |p| > |w|`, which agrees with
  it for all lengths below 2^24.
- MainActivity.ExtractFilename: the content resolver is reduced to its
  outcome (a display name or none); a cursor row holding a null display name,
  which crashes the source, is not modelled.
- MainActivity.LoadFromScreen: the main screen's load updates the flag on
  screen but does not persist it as a preference, unlike
  `MyApplication.LoadList`; the model keeps that difference and does not model
  the preference store itself.
- AlarmScheduler.ScheduleAllPrefsIdempotent: states idempotence of the
  stored ids and the index only, and assumes one directory entry per name;
  the registered alarms are not idempotent under id collisions, as
  `AlarmScheduler.RepeatedPassCanRestoreAlarm` shows.
- ListFileManager.DeleteThenLoad: "no longer loads" assumes one directory
  entry per name, as a real directory has; with duplicates only the first
  entry goes.
- The repository's folder "Smart Pantry/All Lists" differs from the
  "Smart Inventory/All Lists" folder the list manager and the scheduler use;
  `InventoryRepository.DeleteList` works on its own folder argument.
