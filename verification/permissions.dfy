/**
  The notification-permission helper: the two permission checks the
  scheduler relies on, and which preface dialog (if any) the permission flow
  asks the screen to show. The Android API levels are those of
  `Build.VERSION_CODES.S` (31) and `Build.VERSION_CODES.TIRAMISU` (33).
 */
module Permissions {
  import opened Wrappers

  const SdkS: int := 31
  const SdkTiramisu: int := 33

  /** What the helper can observe about the device. */
  datatype Env = Env(
    sdk: int,
    postNotificationsGranted: bool,   // runtime permission POST_NOTIFICATIONS
    canScheduleExactAlarms: bool)     // AlarmManager.canScheduleExactAlarms()

  /** The user's "do not ask again" choices, stored in the app preferences. */
  datatype OptOuts = OptOuts(doNotAsk: bool, doNotAskExact: bool)

  datatype Prompt = NotificationsPreface | ExactAlarmPreface

  /** The helper's one piece of state: the `sRequestInProgress` guard. */
  datatype Helper = Helper(requestInProgress: bool)

  /** Before Android 13 posting notifications needs no runtime permission. */
  predicate NotificationsGranted(env: Env)
  {
    if env.sdk >= SdkTiramisu then env.postNotificationsGranted else true
  }

  /** Before Android 12 exact alarms need no permission. */
  predicate ExactAlarmsGranted(env: Env)
  {
    if env.sdk >= SdkS then env.canScheduleExactAlarms else true
  }

  /** Both permissions the scheduler needs. */
  predicate CanSchedule(env: Env) {
    NotificationsGranted(env) && ExactAlarmsGranted(env)
  }

  /**
    Whether scheduling is allowed, by API level: always below Android 12;
    with the exact-alarm permission on Android 12; with that and the
    notification permission from Android 13 on.
   */
  lemma CanScheduleByLevel(env: Env)
    ensures env.sdk < SdkS ==> CanSchedule(env)
    ensures SdkS <= env.sdk < SdkTiramisu ==> (CanSchedule(env) <==> env.canScheduleExactAlarms)
    ensures SdkTiramisu <= env.sdk ==> (CanSchedule(env) <==> env.postNotificationsGranted && env.canScheduleExactAlarms)
  {
  }

  /** `checkExactAlarmAndPrompt`: the exact-alarm preface, or nothing. */
  function CheckExactAlarm(env: Env, optOuts: OptOuts, forceShow: bool): (r: Option<Prompt>)
    ensures r.Some? ==> r.value == ExactAlarmPreface
    ensures r.Some? <==> env.sdk >= SdkS && !env.canScheduleExactAlarms && (forceShow || !optOuts.doNotAskExact)
  {
    if env.sdk < SdkS then None
    else if env.canScheduleExactAlarms then None
    else if !forceShow && optOuts.doNotAskExact then None
    else Some(ExactAlarmPreface)
  }

  /** `startPermissionFlow`: the prompt the screen is asked to show, if any. */
  function StartPermissionFlow(h: Helper, env: Env, optOuts: OptOuts, forceShow: bool): (r: Option<Prompt>)
    ensures h.requestInProgress ==> r.None?
    ensures !forceShow && optOuts.doNotAsk ==> r.None?
    ensures !h.requestInProgress && (forceShow || !optOuts.doNotAsk) ==>
      if NotificationsGranted(env) then r == CheckExactAlarm(env, optOuts, forceShow)
      else r == Some(NotificationsPreface)
  {
    if h.requestInProgress then None
    else if !forceShow && optOuts.doNotAsk then None
    else if NotificationsGranted(env) then CheckExactAlarm(env, optOuts, forceShow)
    else Some(NotificationsPreface)
  }

  /** What follows the system permission dialog. */
  datatype ResultOutcome = ResultOutcome(helper: Helper, prompt: Option<Prompt>, openNotificationSettings: bool)

  /**
    `handleNotificationPermissionResult`: the guard is cleared; a grant goes on
    to the unforced exact-alarm check; a denial shows no prompt, and opens the
    notification settings when no rationale would be shown (permanent denial).
   */
  function HandlePermissionResult(h: Helper, env: Env, optOuts: OptOuts, isGranted: bool, showRationale: bool)
    : (r: ResultOutcome)
    ensures !r.helper.requestInProgress
    ensures isGranted ==> r.prompt == CheckExactAlarm(env, optOuts, false) && !r.openNotificationSettings
    ensures !isGranted ==> r.prompt.None? && (r.openNotificationSettings <==> !showRationale)
  {
    if !isGranted then ResultOutcome(Helper(false), None, !showRationale)
    else ResultOutcome(Helper(false), CheckExactAlarm(env, optOuts, false), false)
  }

  /** `checkAndScheduleOnResume` clears the guard too. */
  function OnResume(h: Helper): (r: Helper)
    ensures !r.requestInProgress
  {
    Helper(false)
  }

  /** The events that touch the guard. */
  datatype Event =
    | Start(forceShow: bool)
    | PermissionResult(isGranted: bool, showRationale: bool)
    | Resume

  function Step(h: Helper, env: Env, optOuts: OptOuts, e: Event): Helper {
    match e
    case Start(_) => h
    case PermissionResult(g, rationale) => HandlePermissionResult(h, env, optOuts, g, rationale).helper
    case Resume => OnResume(h)
  }

  function Run(h: Helper, env: Env, optOuts: OptOuts, events: seq<Event>): Helper
  {
    if events == [] then h
    else Step(Run(h, env, optOuts, events[..|events| - 1]), env, optOuts, events[|events| - 1])
  }

  /**
    Nothing ever sets the guard: from the initial state it stays clear after
    any sequence of events, so the "already in progress" branch of
    `startPermissionFlow` is never taken.
   */
  lemma {:induction false} GuardNeverSet(env: Env, optOuts: OptOuts, events: seq<Event>)
    ensures !Run(Helper(false), env, optOuts, events).requestInProgress
  {
    if events != [] {
      GuardNeverSet(env, optOuts, events[..|events| - 1]);
    }
  }

  /** Consequently the flow always gets past the guard. */
  lemma StartNeverBlockedByGuard(env: Env, optOuts: OptOuts, events: seq<Event>, forceShow: bool)
    ensures var h := Run(Helper(false), env, optOuts, events);
      StartPermissionFlow(h, env, optOuts, forceShow).None? <==>
        (!forceShow && optOuts.doNotAsk) || (NotificationsGranted(env) && CheckExactAlarm(env, optOuts, forceShow).None?)
  {
    GuardNeverSet(env, optOuts, events);
  }
}
