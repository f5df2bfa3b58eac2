# LLM-Friendly Page Generator, modelled in Dafny

The WordPress plugin `llm-friendly-page-generator` mirrors every published
post of every public post type as a Markdown file under
`WP_CONTENT_DIR/llms/`. The file's place is derived from the post's
permalink path. The plugin also writes a manifest `WP_CONTENT_DIR/llms.txt`
that links to every post, and it keeps one WordPress cron event per public
post type that regenerates that type's files.

This project models the plugin's core and proves properties of the model:

- `php_strings.dfy` (`PhpStrings`): the PHP string primitives the plugin
  relies on, modelled exactly. These are truthiness (`""` and `"0"` are
  falsy), `trim`/`ltrim`/`rtrim`, `explode`, `implode` and `trailingslashit`.
- `file_tree.dfy` (`FileTree`): the part of the filesystem under
  `WP_CONTENT_DIR`, a map from a path (its list of entries) to a directory
  or a file with its content. It also holds what the host primitives do to
  that tree: `wp_mkdir_p`, `file_put_contents`, `scandir`, `unlink`,
  `rmdir`, and a recursive delete.
- `path_mapping.dfy` (`PathMapping`): the permalink path steps in
  `generate_content_for_post_type`. These are trim, explode, `end(...) ?:
  'index'`, the `$path ?` test, the directory string and
  `trailingslashit`. It also gives the directory and file they finally
  name.
- `settings.dfy` (`Settings`): `sanitize_settings` and the effective
  interval that `setup_cron_jobs` derives per post type.
- `cron.dfy` (`CronSchedule`): the hook names, `schedule_post_type`,
  `unschedule_post_type` and `setup_cron_jobs`. They are modelled over a
  cron table kept in the class `CronRegistry`.
- `content.dfy` (`Content`): the posts and the site snapshot the plugin
  reads (name, tagline, public post types, published posts per type).
- `manifest.dfy` (`Manifest`): the exact text of `llms.txt`, with
  `generate_llms_txt`'s loop as a method.
- `rebuild.dfy` (`Rebuild`): the clear and rebuild steps as functions of
  the tree, and the properties of a full and of a per-type rebuild.
- `regeneration.dfy` (`Regeneration`): the class `ContentDirectory`, whose
  methods are the plugin's file operations. These are `delete_directory`,
  `clear_existing_md_files`, `generate_content_for_post_type`,
  `generate_llms_txt`, `generate_all_content` and the three entry points.
  Each is proved equal to the matching function of `Rebuild`.

Three behaviours of the code stand out:

- The manifest link is the permalink with `.md` appended. It does not
  depend on where the file was written: the page at `https://x/about/` is
  linked as `https://x/about/.md` but stored as `llms/about.md`
  (`Rebuild.LinkBesideFile`).
- Clearing deletes only the `llms` directory. `llms.txt` sits beside it and
  survives. The doc comment of `clear_existing_md_files` says the manifest
  is cleared too; the model follows the code (`Rebuild.ClearKeepsManifest`).
- The per-type rebuild run by a cron hook writes that type's files only.
  It neither clears the tree nor rewrites the manifest
  (`Rebuild.TypeRebuildKeepsManifest`).

Nothing in the code catches a failed conversion or write: there is no
`try`/`catch` in the plugin, and the `@` in front of `unlink` and `rmdir`
only silences warnings. The per-type callback is a closure that is
registered only in the request that arms the hook. When `llms` is a regular
file, `delete_directory` throws before anything is written, and a full
rebuild ends with the tree unchanged (`Rebuild.FullRebuildAborts`).

## Model

| member | source | states |
|---|---|---|
| PathMapping.NestedPath | llm-friendly-page-generator/llm-friendly-page-generator.php:300-309 | For a well-formed path, the directory is `llms` followed by every trimmed piece but the last. The file is in that directory, named after the last piece (or `index` when that piece is falsy) plus `.md`. |
| PathMapping.FileInDir | llm-friendly-page-generator/llm-friendly-page-generator.php:303-310 | For a well-formed path, the file `file_put_contents` writes lies directly in the directory `wp_mkdir_p` is asked to create. |
| PathMapping.TargetShape | llm-friendly-page-generator/llm-friendly-page-generator.php:302-309 | Every post's directory is `llms` or lies beneath it. Its file lies strictly beneath `llms` and its last entry is the file name plus `.md`. |
| PathMapping.FileNameShape | llm-friendly-page-generator/llm-friendly-page-generator.php:301-302 | The file name is never empty and never contains a slash. |
| PathMapping.FilePathForm | llm-friendly-page-generator/llm-friendly-page-generator.php:303-309 | The file path is `llms`, then the directory suffix with its trailing slashes and backslashes stripped (what `trailingslashit` does), then one slash, then the file name and `.md`. |
| PathMapping.DirSegmentsFalsy | llm-friendly-page-generator/llm-friendly-page-generator.php:300-303 | A falsy path (absent, "" or "0") puts the file directly in `llms`. |
| PathMapping.RootFallback | llm-friendly-page-generator/llm-friendly-page-generator.php:300-309 | An absent path, "", any run of slashes, and "0" all map to directory `llms` and file `llms/index.md`. |
| PathMapping.NestedExample | llm-friendly-page-generator/llm-friendly-page-generator.php:300-309 | `/a/b/c/` maps to directory `llms/a/b` and file `llms/a/b/c.md`. |
| PathMapping.ZeroExample | llm-friendly-page-generator/llm-friendly-page-generator.php:302-309 | `/a/0` maps to directory `llms/a` and file `llms/a/index.md`, because the falsy last piece "0" is replaced by `index`. |
| PathMapping.AboutExample | llm-friendly-page-generator/llm-friendly-page-generator.php:300-309 | `/about/` maps to the file `llms/about.md`. |
| Settings.SanitizeSettings | llm-friendly-page-generator/llm-friendly-page-generator.php:111-127 | The returned options are exactly the input entries under `apply_to_all` or `schedule_<type>` of a public type whose value is one of the six offered intervals. |
| Settings.SanitizedSound | llm-friendly-page-generator/llm-friendly-page-generator.php:111-127 | Every kept entry comes from the input unchanged, has an offered value, and is `apply_to_all` or the key of a public type. |
| Settings.SanitizedComplete | llm-friendly-page-generator/llm-friendly-page-generator.php:118-124 | A public type's key with an offered value is always kept, unchanged. |
| Settings.SanitizedDropsStale | llm-friendly-page-generator/llm-friendly-page-generator.php:118-124 | The key of a type that is not public is dropped. |
| Settings.SanitizedIdempotent | llm-friendly-page-generator/llm-friendly-page-generator.php:111-127 | Sanitising sanitised settings changes nothing. |
| Settings.EffectiveInterval | llm-friendly-page-generator/llm-friendly-page-generator.php:189-195 | The interval used for a type is truthy, and is either `daily` or one of the stored values. |
| Settings.OverrideApplies | llm-friendly-page-generator/llm-friendly-page-generator.php:189-195 | A truthy `apply_to_all` gives every type its value, whatever the type's own key says. |
| Settings.PerTypeApplies | llm-friendly-page-generator/llm-friendly-page-generator.php:195 | Without a truthy `apply_to_all`, a truthy `schedule_<type>` is the type's interval. |
| Settings.DefaultsToDaily | llm-friendly-page-generator/llm-friendly-page-generator.php:189-195 | Without a truthy override or a truthy value of its own (missing, `""` or `"0"`), a type gets `daily`. |
| Settings.SanitizedIntervalOffered | llm-friendly-page-generator/llm-friendly-page-generator.php:114-121 | On sanitised settings, the effective interval is always one of the six offered choices. |
| CronSchedule.HookPostType | llm-friendly-page-generator/llm-friendly-page-generator.php:209 | A hook read back as a post type is that type's hook name. |
| CronSchedule.HookRoundTrip | llm-friendly-page-generator/llm-friendly-page-generator.php:209 | Every type's hook name is read back as that type. |
| CronSchedule.HookNamesDistinct | llm-friendly-page-generator/llm-friendly-page-generator.php:209 | Distinct post types have distinct hooks. |
| CronSchedule.HookNotFull | llm-friendly-page-generator/llm-friendly-page-generator.php:31 | No per-type hook is the full-regeneration hook `llm_friendly_scheduled_regeneration`. |
| CronSchedule.Scheduled | llm-friendly-page-generator/llm-friendly-page-generator.php:208-217 | A hook that is already armed is never scheduled again. |
| CronSchedule.Unscheduled | llm-friendly-page-generator/llm-friendly-page-generator.php:222-228 | After unscheduling, the type's hook is not armed. |
| CronSchedule.ReconcileOther | llm-friendly-page-generator/llm-friendly-page-generator.php:193-202 | Handling one type touches no other hook. |
| CronSchedule.ReconcileTwice | llm-friendly-page-generator/llm-friendly-page-generator.php:197-201 | Handling a type a second time with the same interval, at any time, changes nothing. |
| CronSchedule.ReconcileAllOther | llm-friendly-page-generator/llm-friendly-page-generator.php:186-203 | `setup_cron_jobs` leaves the hooks of non-public types, and every other hook, as they were. |
| CronSchedule.ReconcileAllAt | llm-friendly-page-generator/llm-friendly-page-generator.php:186-203 | Each public type's hook ends as one reconciliation of that type alone leaves it, whatever the other types and however often the type is listed. |
| CronSchedule.ReconcileAllIdempotent | llm-friendly-page-generator/llm-friendly-page-generator.php:186-203 | Running `setup_cron_jobs` again, at any later time, changes nothing: it never double-arms and never changes an armed hook. |
| CronSchedule.ArmedKept | llm-friendly-page-generator/llm-friendly-page-generator.php:211 | An armed hook whose interval is not `none` keeps its event, even when the interval setting has changed. |
| CronSchedule.Arms | llm-friendly-page-generator/llm-friendly-page-generator.php:211-212 | An unarmed hook with a registered interval other than `none` is armed at `now` with that interval. |
| CronSchedule.NoneDisarmsAll | llm-friendly-page-generator/llm-friendly-page-generator.php:189-198 | The override `none` leaves every public type's hook unarmed. |
| CronSchedule.MonthlyNeverArms | llm-friendly-page-generator/llm-friendly-page-generator.php:212 | With WordPress core's recurrences, `monthly` is refused, so a type set to it is never armed. |
| CronSchedule.CronRegistry.SchedulePostType | llm-friendly-page-generator/llm-friendly-page-generator.php:208-217 | The new table is `Scheduled` of the old one, and all timestamps stay positive. |
| CronSchedule.CronRegistry.UnschedulePostType | llm-friendly-page-generator/llm-friendly-page-generator.php:222-228 | The new table is `Unscheduled` of the old one. |
| CronSchedule.CronRegistry.SetupCronJobs | llm-friendly-page-generator/llm-friendly-page-generator.php:186-203 | The new table is the reconciliation of every public type in order, with the interval derived from the settings. |
| Content.AllPostsHas | llm-friendly-page-generator/llm-friendly-page-generator.php:272-276 | Every published post of a public type is among the posts a full run visits. |
| Manifest.RenderManifest | llm-friendly-page-generator/llm-friendly-page-generator.php:330-350 | The text built is the header followed by one link line per published post, in type order, then post order. |
| Manifest.LinksAppend | llm-friendly-page-generator/llm-friendly-page-generator.php:337-349 | The links of two runs of posts are the links of the first followed by those of the second. |
| Manifest.ManifestLine | llm-friendly-page-generator/llm-friendly-page-generator.php:344-347 | The i-th post's link line sits in the manifest right after the header and the links of the posts before it. |
| Manifest.TwoPageManifest | llm-friendly-page-generator/llm-friendly-page-generator.php:333-347 | The site "SiteName"/"SiteDesc" with the pages Home (`https://x/`) and About (`https://x/about`) gives exactly `# SiteName\n> SiteDesc\n\n- [Home](https://x/.md)\n- [About](https://x/about.md)\n`. |
| FileTree.DeleteRemoves | llm-friendly-page-generator/llm-friendly-page-generator.php:258-267 | Deleting a directory removes it and everything beneath it, and leaves everything else with its content. |
| FileTree.DeleteIdempotent | llm-friendly-page-generator/llm-friendly-page-generator.php:259 | Deleting twice is deleting once: a missing directory is left alone. |
| FileTree.MkdirPEffect | llm-friendly-page-generator/llm-friendly-page-generator.php:305-307 | Unless a file is in the way, `wp_mkdir_p` makes each prefix of its argument a directory and changes nothing else. |
| FileTree.PutContentsEffect | llm-friendly-page-generator/llm-friendly-page-generator.php:310 | `file_put_contents` changes only its target, which becomes a file with the content. It needs a parent directory, and a directory at the target refuses it. |
| Rebuild.PutOutside | llm-friendly-page-generator/llm-friendly-page-generator.php:305-310 | Writing a post touches nothing outside `llms`. |
| Rebuild.PutKeeps | llm-friendly-page-generator/llm-friendly-page-generator.php:305-310 | Writing a post removes nothing and changes no file but its own. |
| Rebuild.PutNewFile | llm-friendly-page-generator/llm-friendly-page-generator.php:305-310 | The only file that writing a post can create is its own. |
| Rebuild.StoreAllAppend | llm-friendly-page-generator/llm-friendly-page-generator.php:272-276 | Storing the posts of several types in turn is storing their concatenation. |
| Rebuild.ClearEmpties | llm-friendly-page-generator/llm-friendly-page-generator.php:248-253 | After clearing, nothing is left strictly inside `llms`. |
| Rebuild.ClearOutside | llm-friendly-page-generator/llm-friendly-page-generator.php:248-253 | Clearing leaves everything outside `llms` as it was. |
| Rebuild.ClearKeepsManifest | llm-friendly-page-generator/llm-friendly-page-generator.php:245-253 | `llms.txt` survives clearing, although the doc comment says it is cleared. |
| Rebuild.ClearIdempotent | llm-friendly-page-generator/llm-friendly-page-generator.php:248-253 | Clearing twice is clearing once. |
| Rebuild.TypeRebuildFrame | llm-friendly-page-generator/llm-friendly-page-generator.php:241-243 | A per-type rebuild removes nothing. It changes and creates no file but that type's targets. Everything outside `llms` stays as it was. |
| Rebuild.TypeRebuildKeepsManifest | llm-friendly-page-generator/llm-friendly-page-generator.php:241-243 | A per-type rebuild leaves `llms.txt` as it was. |
| Rebuild.NoStale | llm-friendly-page-generator/llm-friendly-page-generator.php:357-360 | After a full rebuild, every file inside `llms` belongs to a published post of a public type. |
| Rebuild.FullRebuildAborts | llm-friendly-page-generator/llm-friendly-page-generator.php:250-261 | When `llms` is a regular file, the full rebuild throws while clearing: the tree is unchanged and nothing is inside `llms`. |
| Rebuild.FullRebuildManifest | llm-friendly-page-generator/llm-friendly-page-generator.php:357-360 | A full rebuild leaves the rendered manifest in `llms.txt`, unless a directory stands there or `llms` is a regular file (clearing then throws). |
| Rebuild.FullRebuildExact | llm-friendly-page-generator/llm-friendly-page-generator.php:272-313 | When posts do not clash and `llms` is not a file, the files inside `llms` after a full rebuild are the posts' targets, each holding the last write to it. |
| Rebuild.FullRebuildFiles | llm-friendly-page-generator/llm-friendly-page-generator.php:272-313 | Under the same conditions, a file is inside `llms` after a full rebuild exactly when it is some post's target. |
| Rebuild.FullRebuildContent | llm-friendly-page-generator/llm-friendly-page-generator.php:298-310 | A post whose file no later post claims ends up holding its own converted content. |
| Rebuild.LinkBesideFile | llm-friendly-page-generator/llm-friendly-page-generator.php:300-347 | The page at `https://x/about/` with path `/about/` is linked as `https://x/about/.md` but written to `llms/about.md`. |
| Regeneration.ContentDirectory.DeleteDirectory | llm-friendly-page-generator/llm-friendly-page-generator.php:258-267 | The recursive walk leaves the tree with the directory and everything beneath it removed. A missing path is left alone. On a regular file `array_diff` throws: the result is false exactly then, and the tree is unchanged. The tree stays valid. |
| Regeneration.ContentDirectory.ClearExistingMdFiles | llm-friendly-page-generator/llm-friendly-page-generator.php:248-253 | The new tree is the old one with `llms` deleted; the result is false exactly when `llms` is a regular file and the delete throws. |
| Regeneration.ContentDirectory.GenerateContentForPostType | llm-friendly-page-generator/llm-friendly-page-generator.php:284-313 | The new tree is the old one with each published post of the type written in query order: its directory is created if missing, then its file is written. |
| Regeneration.ContentDirectory.GenerateLlmsTxt | llm-friendly-page-generator/llm-friendly-page-generator.php:330-352 | `llms.txt` is written with the manifest text. |
| Regeneration.ContentDirectory.GenerateAllContent | llm-friendly-page-generator/llm-friendly-page-generator.php:272-279 | Every public type's posts are written in order, then the manifest. |
| Regeneration.ContentDirectory.ScheduledFullRegeneration | llm-friendly-page-generator/llm-friendly-page-generator.php:233-236 | The new tree is the full rebuild of the old one; when clearing throws, nothing is generated. |
| Regeneration.ContentDirectory.RebuildAllLlmPages | llm-friendly-page-generator/llm-friendly-page-generator.php:357-360 | The new tree is the full rebuild of the old one; when clearing throws, nothing is generated. |
| Regeneration.ContentDirectory.RebuildLlmContentForPostType | llm-friendly-page-generator/llm-friendly-page-generator.php:241-243 | The new tree is the per-type rebuild of the old one. |

## Left out

- The admin page, the settings registration and the field renderers (lines 37-109 and 129-158): these are HTML output only.
- `handle_manual_regeneration` (lines 163-181): the nonce check and the admin notice are host plumbing. Its effect is the same clear-then-generate as `RebuildAllLlmPages`.
- Hook registration in the constructor (lines 16-32) and WordPress's dispatch of hooks: the entry points are called directly.
- The closure that `schedule_post_type` registers (lines 213-215): it is added only in the request that arms the hook, so on later requests a fired per-type event has no callback. This is not modelled; the model treats the per-type rebuild as a direct call.
- `convert_to_llm_friendly` (lines 318-325): the HTML-to-Markdown library is the function parameter `convert`.
- `parse_url`: the permalink path is the post's `path` field, `None` when `parse_url` returns null.
- `time()` is the parameter `now`. `wp_get_schedules()` is the registry's constant `recurrences`, and `CoreRecurrences` holds WordPress core's four.
- The WordPress queries (`get_post_types`, `WP_Query`, `get_posts`, `get_permalink`, `get_bloginfo`, `get_option`): they are read from one snapshot `Site`. The code enumerates posts twice, once for the files and once for the manifest; the model assumes both give the same list.
- Setting values that are not strings, and PHP's loose comparison in `in_array`: values are strings, and a missing option is the empty map.
- I/O failures other than those a tree forces (a file in the way of `wp_mkdir_p`, a directory at the target of `file_put_contents`, `rmdir` of a non-empty directory): every other call succeeds. The `@` error suppression therefore has no effect in the model.
- Concurrency between requests and cron runs.
- `.` and `..` pieces in a permalink path: the tree keeps paths as written and does not resolve them.
- Regeneration.ContentDirectory.DeleteDirectory: the TypeError that `array_diff` raises at line 261 on the `false` that `scandir` returns for a regular file is a `false` result with the tree unchanged, and its callers stop there. What WordPress does with the uncaught exception afterwards (an error page, a failed cron run) is not modelled.
- `convert` never fails. An exception from the converter (lines 297 and 323-324), which aborts the run in the code before `generate_llms_txt`, is not modelled.
- Rebuild.FullRebuildExact: it assumes that every post's path is well formed (no empty or backslashed directory piece), and that no post's file stands where another post needs a directory. Without these, some writes are refused or land elsewhere, and only `Rebuild.NoStale` is stated.
- The scheduled full-regeneration hook `llm_friendly_scheduled_regeneration` is never armed by the code; only its handler is modelled (`ScheduledFullRegeneration`).
