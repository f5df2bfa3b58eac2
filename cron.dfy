/**
 * The WordPress cron events the plugin keeps, one per public post type:
 * the hook names, the reconciliation `setup_cron_jobs` performs on every
 * request, and the two helpers that arm and disarm one hook.
 *
 * The cron table is a map from hook name to its next event (the plugin
 * never passes arguments, so a hook has at most one event). The clock
 * (`time()`) is the parameter `now`; the recurrences WordPress knows
 * (`wp_get_schedules()`) are the registry's constant `recurrences`.
 */
module CronSchedule {
  import opened Wrappers
  import opened PhpStrings
  import opened Settings

  /** The prefix of every per-post-type hook. */
  const HookPrefix: string := "llm_friendly_scheduled_regeneration_"

  /** The hook bound to the full regeneration. */
  const FullHook: string := "llm_friendly_scheduled_regeneration"

  /** The recurrences WordPress core registers; `monthly` is not one of them. */
  const CoreRecurrences: set<string> := {"hourly", "twicedaily", "daily", "weekly"}

  /** `llm_friendly_scheduled_regeneration_<type>`. */
  function HookName(t: string): string {
    HookPrefix + t
  }

  /** The post type a per-type hook stands for, or None for any other hook. */
  function HookPostType(h: string): (r: Option<string>)
    ensures r.Some? ==> HookName(r.value) == h
  {
    if |HookPrefix| <= |h| && h[..|HookPrefix|] == HookPrefix then Some(h[|HookPrefix|..]) else None
  }

  /** Every per-type hook name is read back as its post type. */
  lemma HookRoundTrip(t: string)
    ensures HookPostType(HookName(t)) == Some(t)
  {
    assert HookName(t)[..|HookPrefix|] == HookPrefix;
    assert HookName(t)[|HookPrefix|..] == t;
  }

  /** Distinct post types never share a hook. */
  lemma HookNamesDistinct(t: string, u: string)
    requires t != u
    ensures HookName(t) != HookName(u)
  {
    HookRoundTrip(t);
    HookRoundTrip(u);
  }

  /** No per-type hook is the full-regeneration hook. */
  lemma HookNotFull(t: string)
    ensures HookName(t) != FullHook
    ensures HookPostType(FullHook).None?
  {
    assert |HookName(t)| > |FullHook|;
  }

  /** A scheduled event: its next run time and its recurrence name. */
  datatype Event = Event(timestamp: int, recurrence: string)

  type Table = map<string, Event>

  /** `wp_next_scheduled($hook)` is truthy: an event exists and its timestamp is not 0. */
  predicate Armed(events: Table, h: string) {
    h in events && events[h].timestamp != 0
  }

  /**
   * `schedule_post_type`: when the hook is not armed, `wp_schedule_event`
   * adds an event at `now`, unless the timestamp is not positive or the
   * recurrence is not registered, in which case WordPress refuses it.
   */
  function Scheduled(events: Table, t: string, interval: string, now: int, recs: set<string>): (r: Table)
    ensures Armed(events, HookName(t)) ==> r == events
  {
    var h := HookName(t);
    if Armed(events, h) then events
    else if now > 0 && interval in recs then events[h := Event(now, interval)]
    else events
  }

  /** `unschedule_post_type`: remove the hook's event when `wp_next_scheduled` is truthy. */
  function Unscheduled(events: Table, t: string): (r: Table)
    ensures !Armed(r, HookName(t))
  {
    var h := HookName(t);
    if Armed(events, h) then events - {h} else events
  }

  /** One iteration of the loop in `setup_cron_jobs`. */
  function Reconcile(events: Table, t: string, interval: string, now: int, recs: set<string>): Table {
    if interval == "none" then Unscheduled(events, t) else Scheduled(events, t, interval, now, recs)
  }

  /** The whole loop of `setup_cron_jobs` over the public post types, in order. */
  function ReconcileAll(events: Table, settings: Options, types: seq<string>, now: int, recs: set<string>): Table
    decreases |types|
  {
    if |types| == 0 then events
    else
      var t := types[|types| - 1];
      Reconcile(ReconcileAll(events, settings, types[..|types| - 1], now, recs), t, EffectiveInterval(settings, t), now, recs)
  }

  /** The event table, seen at one hook. */
  function At(events: Table, h: string): Option<Event> {
    if h in events then Some(events[h]) else None
  }

  /** Reconciling one post type touches no other hook. */
  lemma ReconcileOther(events: Table, t: string, interval: string, now: int, recs: set<string>, h: string)
    requires h != HookName(t)
    ensures At(Reconcile(events, t, interval, now, recs), h) == At(events, h)
  {
  }

  /** Reconciling the same post type twice with the same interval is the same as once. */
  lemma ReconcileTwice(events: Table, t: string, interval: string, now: int, now2: int, recs: set<string>)
    requires now > 0
    ensures var once := Reconcile(events, t, interval, now, recs);
      Reconcile(once, t, interval, now2, recs) == once
  {
  }

  /** Hooks of post types that are not public are left alone by `setup_cron_jobs`. */
  lemma {:induction false} ReconcileAllOther(events: Table, settings: Options, types: seq<string>, now: int, recs: set<string>, h: string)
    requires forall t :: t in types ==> h != HookName(t)
    ensures At(ReconcileAll(events, settings, types, now, recs), h) == At(events, h)
    decreases |types|
  {
    if |types| > 0 {
      var n := |types| - 1;
      ReconcileAllOther(events, settings, types[..n], now, recs, h);
      ReconcileOther(ReconcileAll(events, settings, types[..n], now, recs), types[n], EffectiveInterval(settings, types[n]), now, recs, h);
    }
  }

  /**
   * The hook of a public post type ends up exactly as one reconciliation of
   * that type alone would leave it, whatever the other types and however
   * often the type is listed.
   */
  lemma {:induction false} ReconcileAllAt(events: Table, settings: Options, types: seq<string>, now: int, recs: set<string>, t: string)
    requires now > 0
    requires t in types
    ensures At(ReconcileAll(events, settings, types, now, recs), HookName(t))
         == At(Reconcile(events, t, EffectiveInterval(settings, t), now, recs), HookName(t))
    decreases |types|
  {
    var n := |types| - 1;
    var prev := ReconcileAll(events, settings, types[..n], now, recs);
    var iv := EffectiveInterval(settings, t);
    if types[n] == t {
      if t in types[..n] {
        ReconcileAllAt(events, settings, types[..n], now, recs, t);
        ReconcileSameAt(events, prev, t, iv, now, recs);
      } else {
        forall u | u in types[..n] ensures HookName(t) != HookName(u) {
          HookNamesDistinct(t, u);
        }
        ReconcileAllOther(events, settings, types[..n], now, recs, HookName(t));
        ReconcileSameAt(events, prev, t, iv, now, recs);
      }
    } else {
      assert t in types[..n];
      ReconcileAllAt(events, settings, types[..n], now, recs, t);
      HookNamesDistinct(types[n], t);
      ReconcileOther(prev, types[n], EffectiveInterval(settings, types[n]), now, recs, HookName(t));
    }
  }

  /**
   * Reconciling a type depends on the table only through that type's hook:
   * if `prev` holds at the hook either what `events` holds or what one
   * reconciliation of `events` leaves, reconciling `prev` yields the latter.
   */
  lemma ReconcileSameAt(events: Table, prev: Table, t: string, interval: string, now: int, recs: set<string>)
    requires now > 0
    requires At(prev, HookName(t)) == At(events, HookName(t))
          || At(prev, HookName(t)) == At(Reconcile(events, t, interval, now, recs), HookName(t))
    ensures At(Reconcile(prev, t, interval, now, recs), HookName(t))
         == At(Reconcile(events, t, interval, now, recs), HookName(t))
  {
  }

  /** Running `setup_cron_jobs` again, at any later time, changes nothing. */
  lemma ReconcileAllIdempotent(events: Table, settings: Options, types: seq<string>, now: int, now2: int, recs: set<string>)
    requires now > 0 && now2 > 0
    ensures var once := ReconcileAll(events, settings, types, now, recs);
      ReconcileAll(once, settings, types, now2, recs) == once
  {
    var once := ReconcileAll(events, settings, types, now, recs);
    var twice := ReconcileAll(once, settings, types, now2, recs);
    forall h | h in once || h in twice
      ensures At(twice, h) == At(once, h)
    {
      HookAgain(events, settings, types, now, now2, recs, h);
    }
    TablesEqual(once, twice);
  }

  lemma HookAgain(events: Table, settings: Options, types: seq<string>, now: int, now2: int, recs: set<string>, h: string)
    requires now > 0 && now2 > 0
    ensures var once := ReconcileAll(events, settings, types, now, recs);
      At(ReconcileAll(once, settings, types, now2, recs), h) == At(once, h)
  {
    var once := ReconcileAll(events, settings, types, now, recs);
    if t :| t in types && h == HookName(t) {
      var iv := EffectiveInterval(settings, t);
      ReconcileAllAt(events, settings, types, now, recs, t);
      ReconcileAllAt(once, settings, types, now2, recs, t);
      ReconcileAgainAt(events, once, t, iv, now, now2, recs);
    } else {
      ReconcileAllOther(once, settings, types, now2, recs, h);
    }
  }

  lemma ReconcileAgainAt(events: Table, once: Table, t: string, interval: string, now: int, now2: int, recs: set<string>)
    requires now > 0 && now2 > 0
    requires At(once, HookName(t)) == At(Reconcile(events, t, interval, now, recs), HookName(t))
    ensures At(Reconcile(once, t, interval, now2, recs), HookName(t)) == At(once, HookName(t))
  {
  }

  lemma TablesEqual(a: Table, b: Table)
    requires forall h :: h in a || h in b ==> At(a, h) == At(b, h)
    ensures a == b
  {
    forall h | h in a ensures h in b && b[h] == a[h] {
      assert At(a, h) == At(b, h);
    }
    forall h | h in b ensures h in a {
      assert At(a, h) == At(b, h);
    }
  }

  /**
   * An armed hook keeps its event: a changed interval other than `none`
   * is not applied to a post type whose hook is already scheduled.
   */
  lemma ArmedKept(events: Table, settings: Options, types: seq<string>, now: int, recs: set<string>, t: string)
    requires now > 0
    requires t in types
    requires Armed(events, HookName(t))
    requires EffectiveInterval(settings, t) != "none"
    ensures At(ReconcileAll(events, settings, types, now, recs), HookName(t)) == At(events, HookName(t))
  {
    ReconcileAllAt(events, settings, types, now, recs, t);
  }

  /** An unarmed hook with a registered interval is armed at `now` with that interval. */
  lemma Arms(events: Table, settings: Options, types: seq<string>, now: int, recs: set<string>, t: string)
    requires now > 0
    requires t in types
    requires !Armed(events, HookName(t))
    requires EffectiveInterval(settings, t) != "none" && EffectiveInterval(settings, t) in recs
    ensures At(ReconcileAll(events, settings, types, now, recs), HookName(t))
         == Some(Event(now, EffectiveInterval(settings, t)))
  {
    ReconcileAllAt(events, settings, types, now, recs, t);
  }

  /** The override `none` disarms the hook of every public post type. */
  lemma NoneDisarmsAll(events: Table, settings: Options, types: seq<string>, now: int, recs: set<string>, t: string)
    requires now > 0
    requires t in types
    requires ApplyToAll in settings && settings[ApplyToAll] == "none"
    ensures !Armed(ReconcileAll(events, settings, types, now, recs), HookName(t))
  {
    ReconcileAllAt(events, settings, types, now, recs, t);
  }

  /**
   * `monthly` is offered but WordPress core does not register it, so a
   * post type set to `monthly` is never armed by the plugin.
   */
  lemma MonthlyNeverArms(events: Table, settings: Options, types: seq<string>, now: int, t: string)
    requires now > 0
    requires t in types
    requires !Armed(events, HookName(t))
    requires EffectiveInterval(settings, t) == "monthly"
    ensures !Armed(ReconcileAll(events, settings, types, now, CoreRecurrences), HookName(t))
  {
    ReconcileAllAt(events, settings, types, now, CoreRecurrences, t);
  }

  /** Every event the plugin's reconciliation leaves has a positive timestamp, given a table with only such events. */
  predicate Positive(events: Table) {
    forall h :: h in events ==> events[h].timestamp > 0
  }

  /** The site's cron table, as far as the plugin's hooks go. */
  class CronRegistry {
    var events: Table
    const recurrences: set<string>

    predicate Valid()
      reads this
    {
      Positive(events)
    }

    constructor (recurrences: set<string>)
      ensures this.recurrences == recurrences
      ensures events == map[]
      ensures Valid()
    {
      this.recurrences := recurrences;
      events := map[];
    }

    /** `schedule_post_type`. */
    method SchedulePostType(t: string, interval: string, now: int)
      requires Valid()
      modifies this
      ensures events == Scheduled(old(events), t, interval, now, recurrences)
      ensures Valid()
    {
      var h := HookName(t);
      if !(h in events && events[h].timestamp != 0) {
        if now > 0 && interval in recurrences {
          events := events[h := Event(now, interval)];
        }
      }
    }

    /** `unschedule_post_type`. */
    method UnschedulePostType(t: string)
      requires Valid()
      modifies this
      ensures events == Unscheduled(old(events), t)
      ensures Valid()
    {
      var h := HookName(t);
      if h in events && events[h].timestamp != 0 {
        events := events - {h};
      }
    }

    /** `setup_cron_jobs`, run on every request with the stored settings and the public post types. */
    method SetupCronJobs(settings: Options, types: seq<string>, now: int)
      requires Valid()
      modifies this
      ensures events == ReconcileAll(old(events), settings, types, now, recurrences)
      ensures Valid()
    {
      for i := 0 to |types|
        invariant Valid()
        invariant events == ReconcileAll(old(events), settings, types[..i], now, recurrences)
      {
        var interval := EffectiveInterval(settings, types[i]);
        if interval == "none" {
          UnschedulePostType(types[i]);
        } else {
          SchedulePostType(types[i], interval, now);
        }
        assert types[..i + 1][..i] == types[..i];
      }
      assert types[..|types|] == types;
    }
  }
}
