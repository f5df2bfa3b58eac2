/**
 * The plugin's stored option `llm_regeneration_settings`: the sanitiser
 * that filters what an administrator submits, and the interval the
 * scheduler derives from the stored settings for one post type.
 *
 * Setting values are strings; a missing option is the empty map.
 */
module Settings {
  import opened PhpStrings

  /** The choices offered for every schedule field. */
  const Intervals: set<string> := {"none", "hourly", "twicedaily", "daily", "weekly", "monthly"}

  /** The global override key. */
  const ApplyToAll: string := "apply_to_all"

  /** The interval used when neither the override nor the type's own key is set. */
  const DefaultInterval: string := "daily"

  type Options = map<string, string>

  /** The per-post-type key `schedule_<type>`. */
  function ScheduleKey(t: string): string {
    "schedule_" + t
  }

  /** The keys the sanitiser may keep for the given public post types. */
  function AllowedKeys(types: seq<string>): set<string> {
    {ApplyToAll} + set t | t in types :: ScheduleKey(t)
  }

  /** The entries of `input` whose key is in `keys` and whose value is an offered interval. */
  function Kept(input: Options, keys: set<string>): Options {
    map k | k in input && k in keys && input[k] in Intervals :: input[k]
  }

  /** What `sanitize_settings` returns for `input` when the public post types are `types`. */
  function Sanitized(input: Options, types: seq<string>): Options {
    Kept(input, AllowedKeys(types))
  }

  /**
   * `sanitize_settings`: keep `apply_to_all` and each `schedule_<type>` of a
   * public type when its value is one of the offered intervals; drop every
   * other key and every other value.
   */
  method SanitizeSettings(input: Options, types: seq<string>) returns (output: Options)
    ensures output == Sanitized(input, types)
  {
    output := map[];
    if ApplyToAll in input && input[ApplyToAll] in Intervals {
      output := output[ApplyToAll := input[ApplyToAll]];
    }
    for i := 0 to |types|
      invariant output == Kept(input, AllowedKeys(types[..i]))
    {
      var key := ScheduleKey(types[i]);
      if key in input && input[key] in Intervals {
        output := output[key := input[key]];
      }
      AllowedKeysSnoc(types, i);
    }
    assert types[..|types|] == types;
  }

  lemma AllowedKeysSnoc(types: seq<string>, i: nat)
    requires i < |types|
    ensures AllowedKeys(types[..i + 1]) == AllowedKeys(types[..i]) + {ScheduleKey(types[i])}
  {
    assert types[..i + 1] == types[..i] + [types[i]];
  }

  /** Every kept entry comes from the input unchanged, under an allowed key, with an offered value. */
  lemma SanitizedSound(input: Options, types: seq<string>, k: string)
    requires k in Sanitized(input, types)
    ensures k in input && Sanitized(input, types)[k] == input[k]
    ensures Sanitized(input, types)[k] in Intervals
    ensures k == ApplyToAll || exists t :: t in types && k == ScheduleKey(t)
  {
  }

  /** An allowed key whose submitted value is an offered interval is never dropped. */
  lemma SanitizedComplete(input: Options, types: seq<string>, t: string)
    requires t in types
    requires ScheduleKey(t) in input && input[ScheduleKey(t)] in Intervals
    ensures ScheduleKey(t) in Sanitized(input, types)
    ensures Sanitized(input, types)[ScheduleKey(t)] == input[ScheduleKey(t)]
  {
  }

  /** A schedule key stored for a type that is no longer public is dropped on the next save. */
  lemma SanitizedDropsStale(input: Options, types: seq<string>, t: string)
    requires t !in types
    ensures ScheduleKey(t) !in Sanitized(input, types)
  {
    assert ScheduleKey(t)[0] != ApplyToAll[0];
    forall u | u in types
      ensures ScheduleKey(u) != ScheduleKey(t)
    {
      assert ScheduleKey(u)[9..] == u && ScheduleKey(t)[9..] == t;
    }
  }

  /** Saving already-sanitised settings again changes nothing. */
  lemma SanitizedIdempotent(input: Options, types: seq<string>)
    ensures Sanitized(Sanitized(input, types), types) == Sanitized(input, types)
  {
  }

  /**
   * The interval `setup_cron_jobs` uses for post type `t`: a truthy
   * `apply_to_all` wins, then a truthy `schedule_<t>`, then `daily`.
   */
  function EffectiveInterval(settings: Options, t: string): (r: string)
    ensures Truthy(r)
    ensures r == DefaultInterval || r in settings.Values
  {
    if ApplyToAll in settings && Truthy(settings[ApplyToAll]) then settings[ApplyToAll]
    else if ScheduleKey(t) in settings && Truthy(settings[ScheduleKey(t)]) then settings[ScheduleKey(t)]
    else DefaultInterval
  }

  /** A truthy override gives every post type the same interval. */
  lemma OverrideApplies(settings: Options, t: string, u: string)
    requires ApplyToAll in settings && Truthy(settings[ApplyToAll])
    ensures EffectiveInterval(settings, t) == EffectiveInterval(settings, u) == settings[ApplyToAll]
  {
  }

  /** Without a truthy override, a truthy `schedule_<t>` is the interval of `t`. */
  lemma PerTypeApplies(settings: Options, t: string)
    requires !(ApplyToAll in settings && Truthy(settings[ApplyToAll]))
    requires ScheduleKey(t) in settings && Truthy(settings[ScheduleKey(t)])
    ensures EffectiveInterval(settings, t) == settings[ScheduleKey(t)]
  {
  }

  /**
   * Without a truthy override or a truthy value of its own (a missing key,
   * `""` or `"0"`), a post type is regenerated daily.
   */
  lemma DefaultsToDaily(settings: Options, t: string)
    requires !(ApplyToAll in settings && Truthy(settings[ApplyToAll]))
    requires !(ScheduleKey(t) in settings && Truthy(settings[ScheduleKey(t)]))
    ensures EffectiveInterval(settings, t) == "daily"
  {
  }

  /** On sanitised settings the effective interval is always one of the offered choices. */
  lemma SanitizedIntervalOffered(input: Options, types: seq<string>, t: string)
    ensures EffectiveInterval(Sanitized(input, types), t) in Intervals
  {
    var s := Sanitized(input, types);
    var r := EffectiveInterval(s, t);
    if r != DefaultInterval {
      var k :| k in s && s[k] == r;
      SanitizedSound(input, types, k);
    }
  }
}
