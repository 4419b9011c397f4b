# SlimSnap image optimizer: a Dafny model

SlimSnap is a WordPress plugin. It shrinks uploaded JPEG, PNG and GIF images in place, keeps a backup of each original and records per-image results in post meta. This project models its decision engine and the state kept around it. The model covers:

- `SlimSnap_Optimizer::optimize_image`. This is the single-image pipeline:
  - the existence check;
  - the backup-once rule;
  - dispatch on the MIME type;
  - the 1140-pixel resize rule;
  - the mapping from the quality knob to encoder parameters;
  - the 95 % accept/reject rule and the reported savings.
- `has_transparency`, as a nested loop over a 2-D pixel array.
- From `SlimSnap_Plugin` (index.php):
  - the settings validator;
  - the statistics counter;
  - the two revert handlers, one of which deletes the backup while the other keeps it;
  - the thumbnail loop;
  - the batch selection and the batch loop;
  - the single-image AJAX handler;
  - the clean-up of old temporary files;
  - the paging of the optimised-images list.
- `SlimSnap_Backup`: copying to and from the backup directory.
- `SlimSnap_Settings`: the eight-key defaults, its validator, and the options field that `update_settings` overwrites.

The state being modelled:

- The file system is a `map<Path, Bytes>` inside a `Disk` class:
  - `Copy`, `Unlink`, `Rename` and `Write` update it in place;
  - a set of read-only paths stands for copies that fail;
  - a clock drives `uniqid()`.
- Post meta is a map from (post id, key) to a PHP value.
- Attachment metadata is a map from post id to its file size and derived sizes.
- The plugin's state (disk, meta, attachment metadata, statistics option) lives in the `Plugin.Site` class, and its handlers are methods on it.

The GD image library is abstracted as a `Codec`, a record of functions:

- the file type of a path;
- decoding bytes into an image, or failing;
- resampling to a size, or failing;
- encoding with given parameters into bytes, or failing;
- whether GD images pass an `is_resource()` guard.

`optimize_image` is specified by a ghost function `Optimizer.Optimize` from the file system before the call to the outcome and the file system after it. The method `Optimizer.OptimizeImage` is proved equal to it, and the properties are lemmas about `Optimize`.

The handlers that call it are specified the same way. `Optimizer.OptimizeAt` adds the uniqid() clock to `Optimize`. `Plugin.ThumbnailsOptimized`, `Plugin.BulkItems` and `Plugin.AjaxOptimized` are ghost functions from a `SiteState` (files, clock, post meta, attachment metadata) to the state after `optimize_thumbnails`, the batch loop and `ajax_optimize_image`. The `Plugin.Site` methods are proved equal to them.

PHP's float arithmetic is restated exactly over the integers:

- The accept rule `optimized < 0.95 * original` is `20 * optimized < 19 * original`.
- `round()` is division rounding halves away from zero.
- `savings_percent` is kept as hundredths of a percent.

The modules are: `Php` (PHP values and built-ins), `Storage`, `Policy`, `Transparency`, `Optimizer`, `Catalog` (posts, meta, batch selection), `Backup`, `SettingsStore` and `Plugin`.

## Model

| member | source | states |
|---|---|---|
| Php.IntValOfDecimalText | slimsnap-optimizer/index.php:133 | intval() of an integer's decimal text gives the integer back |
| Php.RoundDivBounds | slimsnap-optimizer/includes/class-slimsnap-optimizer.php:75 | round(n/d) is within one half of n/d |
| Storage.Basename | slimsnap-optimizer/includes/class-slimsnap-optimizer.php:26 | basename() contains no '/' and is no longer than the path |
| Storage.DirnameOfJoin | slimsnap-optimizer/index.php:397-400 | dirname(dir . '/' . name) is dir when name has no '/', so a thumbnail path is looked up next to the main file |
| Storage.BackupSlotName | slimsnap-optimizer/includes/class-slimsnap-optimizer.php:26 | the backup slot is named by the file's basename |
| Storage.SharedBackupSlot | slimsnap-optimizer/includes/class-slimsnap-backup.php:13-14 | two files share one backup slot exactly when their basenames agree, whatever their directories |
| Storage.Disk.Copy | slimsnap-optimizer/includes/class-slimsnap-backup.php:16 | copy() succeeds exactly when the source exists and the destination is writable; the destination then holds the source's bytes and nothing else changes |
| Storage.Disk.Unlink | slimsnap-optimizer/includes/class-slimsnap-optimizer.php:157 | unlink() removes the path and reports whether it existed |
| Storage.Disk.Rename | slimsnap-optimizer/includes/class-slimsnap-optimizer.php:167 | rename() moves the bytes to the new name and removes the old one |
| Storage.Disk.Write | slimsnap-optimizer/includes/class-slimsnap-optimizer.php:123 | the encoder's output becomes the file's bytes |
| Storage.Disk.Uniqid | slimsnap-optimizer/includes/class-slimsnap-optimizer.php:104 | uniqid() returns the token of the current clock reading and advances the clock |
| Storage.UniqidAt | slimsnap-optimizer/includes/class-slimsnap-optimizer.php:104 | a uniqid() token is non-empty and contains no '/' |
| Storage.UniqidInjective | slimsnap-optimizer/includes/class-slimsnap-optimizer.php:104 | tokens read at different times differ |
| Policy.ParseSettings | slimsnap-optimizer/includes/class-slimsnap-optimizer.php:31-35 | a missing compression type becomes 'lossy' and a missing quality 80; given values are kept |
| Policy.ResizeRule | slimsnap-optimizer/includes/class-slimsnap-optimizer.php:68-75 | width at most 1140 keeps the size; a wider image becomes exactly 1140 wide and no taller than before, with height within half a pixel of the aspect ratio |
| Policy.ScaledHeightZero | slimsnap-optimizer/includes/class-slimsnap-optimizer.php:75-80 | the scaled height rounds to 0 exactly when the image is more than 2280 times as wide as it is tall |
| Policy.JpegQualityRange | slimsnap-optimizer/includes/class-slimsnap-optimizer.php:119-121 | the JPEG quality is the requested quality capped at 100 in lossy mode and 92 in any other mode |
| Policy.PaletteColors | slimsnap-optimizer/includes/class-slimsnap-optimizer.php:138 | the palette size always lies between its floor (16 for PNG, 32 for GIF) and 256 |
| Policy.PaletteColorsScale | slimsnap-optimizer/includes/class-slimsnap-optimizer.php:138 | for quality 0..100 the palette is the rounded share of 256 raised to the floor: the floor at 0 and 256 at 100 |
| Policy.PngLevelRange | slimsnap-optimizer/includes/class-slimsnap-optimizer.php:142 | the PNG level is never above 9; for quality 0..100 it is in 0..9, 9 at quality 0 and 0 at quality 100 |
| Policy.PngLevelBelowZero | slimsnap-optimizer/includes/class-slimsnap-optimizer.php:142 | there is no lower clamp: quality 106 gives level -1 |
| Policy.PlanInRange | slimsnap-optimizer/includes/class-slimsnap-optimizer.php:108-154 | for quality 0..100 every encoder parameter is in range; only a lossy opaque PNG is palettised; a GIF is palettised exactly when lossy |
| Policy.SavingsOfAccepted | slimsnap-optimizer/includes/class-slimsnap-optimizer.php:165-177 | an accepted result is smaller and saves between 5.00 % and 100 %; an unchanged size saves 0 |
| Policy.SavingsCanRoundToFive | slimsnap-optimizer/includes/class-slimsnap-optimizer.php:165-177 | a result that is accepted can still report exactly 5.00 |
| Transparency.AlphaBits | slimsnap-optimizer/includes/class-slimsnap-optimizer.php:223 | the alpha bits are at most 127 and are zero exactly when the mask 0x7F000000 clears the pixel |
| Transparency.HasTransparency | slimsnap-optimizer/includes/class-slimsnap-optimizer.php:212-230 | the scan returns true exactly when the is_resource guard holds and some pixel has non-zero alpha |
| Optimizer.TempIsFresh | slimsnap-optimizer/includes/class-slimsnap-optimizer.php:104 | the temporary file is neither the image nor its backup slot |
| Optimizer.ResizeOutcome | slimsnap-optimizer/includes/class-slimsnap-optimizer.php:68-101 | the image is kept exactly when at most 1140 wide; creating the canvas fails exactly for images over 2280:1; otherwise the resampler is asked for the target size |
| Optimizer.FailuresKeepOriginal | slimsnap-optimizer/includes/class-slimsnap-optimizer.php:18-63 | a missing file fails with 'File not found' before anything is written; a file that does not decode fails with 'Failed to create image resource', which is the only other failure besides an unsupported type; the exceptions are the canvas, resample and save failures; on every failure the file's bytes are unchanged |
| Optimizer.BackupWrittenOnce | slimsnap-optimizer/includes/class-slimsnap-optimizer.php:26-29 | an existing backup is never touched; a new backup holds the file's bytes from before the run, unless the slot is read-only |
| Optimizer.SecondRunKeepsFirstBackup | slimsnap-optimizer/includes/class-slimsnap-optimizer.php:26-29 | after two runs the backup still holds the bytes from before the first |
| Optimizer.AcceptRejectRule | slimsnap-optimizer/includes/class-slimsnap-optimizer.php:161-178 | a success reports the original size; the file holds the smaller output exactly when it is under 95 %, otherwise it is untouched and the size is reported unchanged; savings are 0 exactly when nothing changed, and otherwise at least 5.00 % |
| Optimizer.EncoderDecides | slimsnap-optimizer/includes/class-slimsnap-optimizer.php:104-178 | once the encoder is reached (the file exists, decodes and resizes), its output alone decides the run: no output throws 'Failed to save optimized image' and keeps the file; an output under 95 % replaces the file and reports both sizes; a larger one keeps the file and reports the original size twice with 0 savings; without an encoder call there is no success and no save failure |
| Optimizer.OnlyThreePathsChange | slimsnap-optimizer/includes/class-slimsnap-optimizer.php:104-171 | the temporary file never outlives the run; only the image, its backup slot and the temporary file can change |
| Optimizer.OptimizeImage | slimsnap-optimizer/includes/class-slimsnap-optimizer.php:17-186 | the outcome, file system and clock are OptimizeAt: Optimize's run with the temporary name uniqid() gives at the clock, and the clock advances exactly when the encoder is reached |
| Optimizer.ScanImage | slimsnap-optimizer/includes/class-slimsnap-optimizer.php:133 | the transparency check on the decoded image reports exactly a pixel with alpha when the guard holds |
| Optimizer.SaveResult | slimsnap-optimizer/includes/class-slimsnap-optimizer.php:156-178 | the end of the run on the disk equals Finish: a save failure removes the temporary file; an accepted output replaces the file; otherwise the output is dropped |
| Catalog.AttachedFile | slimsnap-optimizer/includes/class-slimsnap-backup.php:20 | a file is returned only when it is the file of a post with that ID; an unknown ID gives none |
| Catalog.WithoutSlimSnapMeta | slimsnap-optimizer/index.php:572-577 | the five SlimSnap keys of that post are gone and every other meta row is kept |
| Catalog.CandidateIds | slimsnap-optimizer/index.php:616-633 | an ID is selected exactly when it belongs to an image attachment that is unflagged or whose stored settings do not match |
| Catalog.SortDescending | slimsnap-optimizer/index.php:634 | ORDER BY ID DESC gives a descending permutation |
| Catalog.Window | slimsnap-optimizer/index.php:635 | LIMIT/OFFSET takes up to limit elements from offset on, in order; a negative value gives no rows |
| Catalog.SelectBatchSound | slimsnap-optimizer/index.php:616-640 | every selected ID is a candidate and at most limit are selected |
| Catalog.SelectBatchOrdered | slimsnap-optimizer/index.php:616-640 | with distinct post IDs the selection is strictly descending |
| Catalog.SelectBatchComplete | slimsnap-optimizer/index.php:616-640 | from offset 0 with a large enough limit every candidate is selected |
| Catalog.CandidateIdsDistinct | slimsnap-optimizer/index.php:617 | distinct post IDs give distinct selected IDs |
| Backup.BackupImageOverwrites | slimsnap-optimizer/includes/class-slimsnap-backup.php:3-17 | backup_image succeeds exactly when the file exists and the slot is writable; the slot then holds the current bytes, whatever it held; a missing file writes nothing |
| Backup.BackupRulesDiffer | slimsnap-optimizer/includes/class-slimsnap-backup.php:16 | with a stale backup in place, the optimiser keeps it while backup_image replaces it |
| Backup.RestoreOutcomes | slimsnap-optimizer/includes/class-slimsnap-backup.php:19-49 | each message belongs to exactly one case; a success gives the file the backup's bytes and keeps the backup; a failure changes nothing |
| Backup.RestoreRepeatable | slimsnap-optimizer/includes/class-slimsnap-backup.php:38-43 | a second restore succeeds again and changes nothing more |
| Backup.BackupThenRestore | slimsnap-optimizer/includes/class-slimsnap-backup.php:3-49 | restore after backup brings back the bytes from the time of the backup, whatever was written in between |
| Backup.BackupImage | slimsnap-optimizer/includes/class-slimsnap-backup.php:3-17 | the method's result and file system are BackedUp |
| Backup.RestoreImage | slimsnap-optimizer/includes/class-slimsnap-backup.php:19-49 | the method's result and file system are RestoredFrom the attachment's file |
| SettingsStore.SanitizeFillsDefaults | includes/class-slimsnap-settings.php:21-61 | the output has exactly the keys of the defaults, each of its default's kind; an unset key takes its default; a set quality is intval'd and a set type text-sanitised |
| SettingsStore.DefaultsHaveEightKeys | includes/class-slimsnap-settings.php:73-84 | the defaults have the eight named keys |
| SettingsStore.SanitizeEmptyIsDefaults | includes/class-slimsnap-settings.php:21-61 | sanitising an empty input gives the defaults |
| SettingsStore.QualityNotClamped | includes/class-slimsnap-settings.php:30-32 | a quality of 150 is kept as 150 |
| SettingsStore.SanitizeIdempotent | includes/class-slimsnap-settings.php:21-61 | sanitising twice is sanitising once, when the text sanitiser is idempotent and leaves 'lossy' alone |
| SettingsStore.ParseArgsSpec | includes/class-slimsnap-settings.php:87 | wp_parse_args keeps the keys of both sides; given keys win and other keys take their defaults |
| SettingsStore.Settings.constructor | includes/class-slimsnap-settings.php:6-11 | the options are the stored option, or the defaults when none is stored |
| SettingsStore.Settings.InitSettings | includes/class-slimsnap-settings.php:63-67 | the defaults are stored only when the stored option is falsy; otherwise nothing changes |
| SettingsStore.Settings.GetSettings | includes/class-slimsnap-settings.php:69-71 | returns the options field |
| SettingsStore.Settings.UpdateSettings | includes/class-slimsnap-settings.php:86-89 | the options become the defaults overridden by the new settings, with extra keys kept, and are stored |
| SettingsStore.UpdateThenGet | includes/class-slimsnap-settings.php:69-89 | get after update returns the merged settings, which hold every default key |
| Plugin.PluginSettingsShape | slimsnap-optimizer/index.php:126-137 | the output has exactly the four keys: two booleans, a quality clamped to 0..100, and a type loosely equal to 'lossy' or 'lossless' ('lossy' otherwise); it is idempotent |
| Plugin.LooseCheckAdmitsTrue | slimsnap-optimizer/index.php:130-132 | the boolean true passes the loose check and is stored as the compression type |
| Plugin.StrictPluginSettingsSpec | slimsnap-optimizer/index.php:126-137 | with a strict check the type is always 'lossy' or 'lossless'; for string input the result matches the loose version; it is idempotent |
| Plugin.StatisticsAccumulate | slimsnap-optimizer/index.php:549-561 | after n updates the counter has grown by n and the total by the bytes saved; the average is total bytes divided by count |
| Plugin.Site.UpdateStatistics | slimsnap-optimizer/index.php:549-561 | the statistics option becomes Recorded: starting from zeros when absent |
| Plugin.SettingsValuesDiffer | slimsnap-optimizer/index.php:672-675 | the bulk and AJAX handlers store the same settings pairs in different orders |
| Plugin.RecordOptimization | slimsnap-optimizer/index.php:672-680 | the five SlimSnap keys hold the flag, sizes, savings and settings; every other meta row is kept |
| Plugin.RevertErasesRecord | slimsnap-optimizer/index.php:572-577 | deleting the SlimSnap meta undoes recording an optimisation |
| Plugin.RevertDeletesBackup | slimsnap-optimizer/index.php:563-583 | a revert succeeds exactly when the backup exists; it restores the file, deletes the backup and the meta; a second revert reports false and changes nothing |
| Plugin.RevertWithoutFile | slimsnap-optimizer/index.php:563-583 | without an attached file the slot is the backup directory: the revert reports true every time and touches no file |
| Plugin.Site.RevertOptimization | slimsnap-optimizer/index.php:563-583 | the method's result, files and meta are Reverted |
| Plugin.AjaxRevertKeepsBackup | slimsnap-optimizer/index.php:893-933 | id 0 is exactly the invalid case; a missing backup answers 'Backup file not found'; with a backup the revert succeeds exactly when the copy can be made and answers 'Failed to restore original image' otherwise; errors change nothing; a success restores the file, keeps the backup, deletes the meta and can be repeated with the same effect |
| Plugin.RevertsDiffer | slimsnap-optimizer/index.php:893-933 | after the same successful restore, revert_optimization has deleted the backup and the AJAX revert has kept it |
| Plugin.Site.AjaxRevertOptimization | slimsnap-optimizer/index.php:893-933 | the response, files and meta are AjaxReverted; on success the attachment metadata is regenerated, and on error it is unchanged |
| Plugin.ApplyThumbnailResults | slimsnap-optimizer/index.php:399-411 | only sizes whose optimisation succeeded get the new file size; names, files and every other entry are unchanged |
| Plugin.Site.OptimizeThumbnails | slimsnap-optimizer/index.php:390-415 | the Exception, metadata, files and clock are ThumbnailsOptimized: without sizes nothing happens; otherwise each thumbnail next to the attached file is optimised in turn on the files the earlier ones left, and the metadata is saved once, with ApplyThumbnailResults of the outcomes, unless an Exception ended the loop |
| Plugin.Site.ThumbnailLoop | slimsnap-optimizer/index.php:399-411 | the Exception, files and clock are ThumbnailPass's; without an Exception the sizes are ApplyThumbnailResults of one outcome per size |
| Plugin.Site.ThumbnailStep | slimsnap-optimizer/index.php:400-406 | a size whose file is missing is skipped with the files and clock untouched; otherwise the outcome, files and clock are OptimizeAt's on the thumbnail's path |
| Plugin.ThumbnailPassShape | slimsnap-optimizer/index.php:399-411 | the loop reaches every size unless an Exception ends it; that Exception is the last outcome and no earlier one is an Exception |
| Plugin.ThumbnailPassSkipsMissing | slimsnap-optimizer/index.php:400-403 | when no thumbnail file exists every size is skipped and the files and clock are unchanged |
| Plugin.ParseBatchArgs | slimsnap-optimizer/index.php:606-613 | the batch defaults are limit 10, offset 0, 'lossy' and 80; given values are kept |
| Plugin.BatchTotals | slimsnap-optimizer/index.php:664-668 | total_saved is the sum of the success entries' savings, each of which is non-negative |
| Plugin.EveryItemListed | slimsnap-optimizer/index.php:648-719 | every selected ID ends up in 'success' or 'failed' or both |
| Plugin.ThumbnailExceptionListsItemTwice | slimsnap-optimizer/index.php:664-718 | an item whose thumbnails throw after a successful main image is listed in both 'success' and 'failed' |
| Plugin.IsolatedItemListedOnce | slimsnap-optimizer/index.php:648-719 | with thumbnail failures kept apart, the success and failed IDs together are exactly the selected IDs |
| Plugin.Site.RefreshMetadata | slimsnap-optimizer/index.php:683-696 | truthy metadata gets the new file size, with the metadata regenerated from the current files merged over it; otherwise nothing changes |
| Plugin.Site.ProcessItem | slimsnap-optimizer/index.php:649-718 | the report and the new files, clock, meta and metadata are BulkItem's; the entries are the item's entries as written, or isolated; a success saves no more bytes than the original had |
| Plugin.Site.ProcessFile | slimsnap-optimizer/index.php:658-717 | for an existing file, the report and new state are BulkFile's: the optimiser's run, then on success the meta, the refreshed metadata and the thumbnails |
| Plugin.Site.RunBatch | slimsnap-optimizer/index.php:648-719 | the reports and the final state are BulkItems over the IDs, each on the state the earlier ones left; the loop never aborts and the results are Summarize of the reports |
| Plugin.BulkItemEffect | slimsnap-optimizer/index.php:649-718 | a missing file is reported and changes nothing; otherwise the report carries the optimiser's outcome on the attached file; only a success writes the five meta keys with the batch's settings, and only then can a thumbnail Exception be reported |
| Plugin.BatchLeavesOtherMeta | slimsnap-optimizer/index.php:648-719 | the meta rows of an ID the batch does not select are unchanged |
| Plugin.BatchRecordsEachSuccess | slimsnap-optimizer/index.php:664-680 | over distinct IDs, every success leaves its five meta keys holding the flag, the two sizes, the savings and the batch's settings; every other selected ID's meta rows are unchanged |
| Plugin.Site.BulkOptimizeImages | slimsnap-optimizer/index.php:605-722 | the IDs are SelectBatch over the meta from before the batch; the reports and state are BulkItems over them; the results are Summarize as written |
| Plugin.Site.BulkOptimizeImagesIsolated | slimsnap-optimizer/index.php:605-722 | the same selection, reports and state; each selected ID is listed exactly once |
| Plugin.Site.AjaxOptimizeImage | slimsnap-optimizer/index.php:333-388 | the reply, state and statistics are AjaxOptimized: the missing-ID and missing-file errors change nothing; otherwise the optimiser runs on the attached file with the request's settings (defaults 'lossy' and 80) and AjaxAfterRun gives the rest |
| Plugin.Site.AjaxReplyFor | slimsnap-optimizer/index.php:364-387 | the reply, state and statistics are AjaxAfterRun of the optimiser's outcome |
| Plugin.AjaxAfterRunEffect | slimsnap-optimizer/index.php:364-387 | the reply is an error exactly for a failure; an Exception escapes; only a success records the meta and the statistics, and the success reply carries that outcome |
| Plugin.AjaxOptimizeReplies | slimsnap-optimizer/index.php:333-388 | without an ID or attached file the error changes nothing; otherwise the reply is an error exactly when Optimize fails on the attached file, an Exception escapes, and a success records the five meta keys with the request's settings and the statistics |
| Plugin.CleanedUp | slimsnap-optimizer/index.php:585-603 | only removes files; removes every globbed file older than an hour; keeps every file that is neither named nor stale |
| Plugin.Site.CleanupTempFiles | slimsnap-optimizer/index.php:585-603 | the disk ends as CleanedUp |
| Plugin.PagingCoversRows | slimsnap-optimizer/index.php:836-838 | row k is on page k/20+1, which lies within the page count; the last page is non-empty |

## Left out

- GD internals are the abstract `Codec`:
  - decoding, resampling and encoding;
  - palette conversion and interlacing;
  - the PNG fill of a transparent background.
- Codec: an empty file is assumed never to decode (`ValidCodec`). This is what keeps the size division at class-slimsnap-optimizer.php:177 away from zero.
- PHP float arithmetic is modelled exactly over the integers. PHP's float rounding can differ at exact boundaries of the 0.95 threshold, of `round(..., 2)` and of the width/height ratio.
- Optimizer.ResizeOutcome: a zero scaled height is modelled as the Exception 'Failed to create resized image'. Under PHP 8, `imagecreatetruecolor` with a zero height raises a ValueError, which no `catch (Exception ...)` catches.
- Optimizer.OptimizeImage: the failure of the stripped JPEG canvas ('Failed to create stripped image', class-slimsnap-optimizer.php:110-113) is not a separate path. It is folded into the encoder's failure.
- The `is_resource()` guards are the parameter `Codec.gdIsResource` rather than fixed either way.
- Storage.Basename: it models paths without a trailing '/'. PHP's basename() strips trailing slashes first.
- Storage.Dirname: the same simplification as Basename applies. Repeated slashes before the last name are kept ("a//b" gives "a/"), where PHP strips them.
- Php.IntVal: exponent forms ("1e3"), hexadecimal text and saturation at the platform's integer bounds are not modelled.
- `sanitize_text_field` is a parameter. `wp_generate_attachment_metadata` is the site's `regenerate` function of the post, its file and the whole file map; what it writes to disk (new thumbnails) is not modelled.
- Attachment files are `Option<Path>`. An attached file that is the empty string, which PHP treats as falsy, is not distinguished from a present one.
- Hooks, nonces, capability checks ('Unauthorized'), cache clearing and the scheduling of events are WordPress plumbing. They are not modelled.
- The SQL text and its LIKE test are the abstract predicate `matches`.
- Plugin.BulkOptimizeImages: the query's DISTINCT is not modelled separately. Selection reads the post list directly.
- Views, client JavaScript, class-slimsnap-stats.php, `format_file_size` and `get_optimization_stats` have no model.
- `ajax_pre_upload_optimize`, `handle_upload` and `handle_attachment_metadata` have no model.
- Dead code is not modelled:
  - `log_optimization`;
  - the optimiser's private `optimize_thumbnails`;
  - the `backup_original` branches at index.php:238-241 and 354-357, which never run because `$settings` is never assigned.
- Directories are not in the file map. The existence of the backup directory is the flag `backupDirExists`, and `wp_mkdir_p` is not modelled.
- SettingsStore.Settings.UpdateSettings: stores the merged array as given. The sanitize callbacks that `register_setting` attaches to the option run inside `update_option` and are not modelled.
- Plugin.Site.AjaxRevertOptimization: a falsy regenerated metadata is stored as empty metadata, not as `false`.
- Plugin.Site.AjaxOptimizeImage: the error reply carries only the message, not the optimiser's whole result array.
- Plugin.PagingCoversRows: `ceil()` returns a float in PHP, and the model uses the exact integer ceiling. A page below 1 gives a negative OFFSET, which is not modelled.
- The model follows the code where it is surprising:
  - the statistics average is total bytes saved per image (index.php:558), not a percentage;
  - `restore_image` copies the backup back and never deletes it (class-slimsnap-backup.php:38-43), and neither does the AJAX revert (index.php:918);
  - the PNG level has an upper clamp of 9 but no lower clamp (class-slimsnap-optimizer.php:142);
  - the savings can be exactly 5.00, although the comment at class-slimsnap-optimizer.php:164 says "more than 5%";
  - `revert_optimization` with no attached file looks up the backup directory itself and returns true (index.php:564-579).
- A file that is itself in the backup directory is its own backup slot. Optimising it is excluded from the backup lemmas by `path != BackupPath(path)`.

## Findings

| source | as written | input that shows it | evidently intended | confidence | as-written member | corrected member |
|---|---|---|---|---|---|---|
| slimsnap-optimizer/index.php:664-718 | an Exception from `optimize_thumbnails` after a successful main image is caught by the item's catch block. The item is then appended to 'failed' although it is already in 'success', and its savings still count. | item 7 optimised from 100 to 50 bytes, then a thumbnail save throws 'Failed to save optimized image' | every item listed exactly once | medium, not executed | Plugin.ThumbnailExceptionListsItemTwice | Plugin.IsolatedItemListedOnce |
| slimsnap-optimizer/index.php:130-132 | `in_array` without strict mode compares loosely, so `true == 'lossy'` holds and the boolean true is kept as the compression type | `compression_type => true` | only 'lossy' or 'lossless' stored | medium, not executed | Plugin.LooseCheckAdmitsTrue | Plugin.StrictPluginSettingsSpec |
