/** SlimSnap_Plugin (slimsnap-optimizer/index.php): the settings validator,
    the statistics counter, the two revert handlers, the thumbnail loop,
    the batch loop over the selected attachments, the single-image AJAX
    handler, the clean-up of old temporary files and the paging of the
    optimised-images list.

    The plugin's $settings field is never assigned, so the
    'backup_original' branches of handle_upload and ajax_optimize_image
    never run: backups come only from the optimiser itself, and this model
    has no such branches. */
module Plugin {
  import opened Php
  import opened Storage
  import opened Policy
  import opened Optimizer
  import opened Catalog

  // ---------------------------------------------------------------------
  // sanitize_settings

  /** $input[$k]: a missing key reads as null. */
  function Field(input: map<string, PhpValue>, k: string): PhpValue {
    if k in input then input[k] else PNull
  }

  /** in_array($v, array('lossy', 'lossless')): loose comparison. */
  predicate LooseInTypes(v: PhpValue) {
    LooseEqualsText(v, "lossy") || LooseEqualsText(v, "lossless")
  }

  /** in_array($v, array('lossy', 'lossless'), true): strict comparison. */
  predicate StrictInTypes(v: PhpValue) {
    v == PStr("lossy") || v == PStr("lossless")
  }

  /** The four-key array sanitize_settings builds around a chosen
      compression type. */
  function SanitizedAround(input: map<string, PhpValue>, compressionType: PhpValue): map<string, PhpValue> {
    map["auto_optimize" := PBool(!Empty(Field(input, "auto_optimize"))),
        "compression_type" := compressionType,
        "compression_quality" := PInt(Min(100, Max(0, IntVal(Field(input, "compression_quality"))))),
        "backup_original" := PBool(!Empty(Field(input, "backup_original")))]
  }

  /** sanitize_settings as written: the type check is a loose in_array. */
  function SanitizePluginSettings(input: map<string, PhpValue>): map<string, PhpValue> {
    var t := Field(input, "compression_type");
    SanitizedAround(input, if LooseInTypes(t) then t else PStr("lossy"))
  }

  /** sanitize_settings with the strict in_array its type check evidently
      intends. */
  function SanitizePluginSettingsStrict(input: map<string, PhpValue>): map<string, PhpValue> {
    var t := Field(input, "compression_type");
    SanitizedAround(input, if StrictInTypes(t) then t else PStr("lossy"))
  }

  /** The sanitised array has exactly four keys: two booleans, a quality
      clamped to 0..100, and a type that compares loosely equal to 'lossy'
      or 'lossless' ('lossy' when the input's does not). Sanitising twice
      is sanitising once. */
  lemma PluginSettingsShape(input: map<string, PhpValue>)
    ensures var out := SanitizePluginSettings(input);
      && out.Keys == {"auto_optimize", "compression_type", "compression_quality", "backup_original"}
      && out["auto_optimize"].PBool? && out["backup_original"].PBool?
      && out["compression_quality"].PInt? && 0 <= out["compression_quality"].i <= 100
      && LooseInTypes(out["compression_type"])
      && (!LooseInTypes(Field(input, "compression_type")) ==> out["compression_type"] == PStr("lossy"))
      && SanitizePluginSettings(out) == out
  {
    var out := SanitizePluginSettings(input);
    assert Field(out, "compression_type") == out["compression_type"];
    assert IntVal(Field(out, "compression_quality")) == out["compression_quality"].i;
    assert !Empty(Field(out, "auto_optimize")) == out["auto_optimize"].b;
    assert !Empty(Field(out, "backup_original")) == out["backup_original"].b;
  }

  /** The loose check lets the boolean true through as the compression
      type, which is neither 'lossy' nor 'lossless'. */
  lemma LooseCheckAdmitsTrue()
    ensures var out := SanitizePluginSettings(map["compression_type" := PBool(true)]);
      out["compression_type"] == PBool(true) && !StrictInTypes(out["compression_type"])
  {
    var input := map["compression_type" := PBool(true)];
    assert Field(input, "compression_type") == PBool(true);
    assert LooseEqualsText(PBool(true), "lossy");
  }

  /** With the strict check the type is always exactly 'lossy' or
      'lossless'; for a string input the result is what the loose check
      gives; and sanitising twice is sanitising once. */
  lemma StrictPluginSettingsSpec(input: map<string, PhpValue>)
    ensures var out := SanitizePluginSettingsStrict(input);
      && out.Keys == {"auto_optimize", "compression_type", "compression_quality", "backup_original"}
      && (out["compression_type"] == PStr("lossy") || out["compression_type"] == PStr("lossless"))
      && 0 <= out["compression_quality"].i <= 100
      && (Field(input, "compression_type").PStr? ==> out == SanitizePluginSettings(input))
      && SanitizePluginSettingsStrict(out) == out
  {
    var out := SanitizePluginSettingsStrict(input);
    assert Field(out, "compression_type") == out["compression_type"];
    assert IntVal(Field(out, "compression_quality")) == out["compression_quality"].i;
    assert !Empty(Field(out, "auto_optimize")) == out["auto_optimize"].b;
    assert !Empty(Field(out, "backup_original")) == out["backup_original"].b;
  }

  // ---------------------------------------------------------------------
  // update_statistics

  /** An exact quotient num / den. */
  datatype Fraction = Fraction(num: int, den: int)

  /** The 'slimsnap_statistics' option. */
  datatype Stats = Stats(totalOptimized: nat, totalSaved: int, averageSavings: Fraction)

  function DefaultStats(): Stats {
    Stats(0, 0, Fraction(0, 1))
  }

  /** The statistics after one more optimised image: one more image, its
      saved bytes added, and the average recomputed as saved bytes per
      image. */
  function Recorded(stats: Option<Stats>, originalSize: int, optimizedSize: int): Stats {
    var s := if stats.Some? then stats.value else DefaultStats();
    var n := s.totalOptimized + 1;
    var saved := s.totalSaved + (originalSize - optimizedSize);
    Stats(n, saved, Fraction(saved, n))
  }

  /** The statistics after recording each (original, optimized) pair in turn. */
  function RecordAll(stats: Option<Stats>, results: seq<(int, int)>): Option<Stats>
    decreases |results|
  {
    if results == [] then stats
    else RecordAll(Some(Recorded(stats, results[0].0, results[0].1)), results[1..])
  }

  /** The bytes saved over a sequence of (original, optimized) pairs. */
  function BytesSaved(results: seq<(int, int)>): int {
    if results == [] then 0 else (results[0].0 - results[0].1) + BytesSaved(results[1..])
  }

  /** After any non-empty run of updates the counter has grown by the
      number of images, the total by the bytes they saved, and the average
      is the total divided by the counter: bytes per image, not a
      percentage. */
  lemma {:induction false} StatisticsAccumulate(stats: Option<Stats>, results: seq<(int, int)>)
    requires results != []
    decreases |results|
    ensures var s0 := if stats.Some? then stats.value else DefaultStats();
      var r := RecordAll(stats, results);
      && r.Some?
      && r.value.totalOptimized == s0.totalOptimized + |results|
      && r.value.totalSaved == s0.totalSaved + BytesSaved(results)
      && r.value.averageSavings == Fraction(r.value.totalSaved, r.value.totalOptimized)
  {
    var next := Some(Recorded(stats, results[0].0, results[0].1));
    if |results| > 1 {
      StatisticsAccumulate(next, results[1..]);
    }
  }

  // ---------------------------------------------------------------------
  // The meta an optimisation writes

  /** '_slimsnap_settings' as bulk_optimize_images writes it. */
  function BulkSettingsValue(quality: int, compressionType: string): PhpValue {
    PArray([("quality", PInt(quality)), ("compression_type", PStr(compressionType))])
  }

  /** '_slimsnap_settings' as ajax_optimize_image writes it. */
  function AjaxSettingsValue(compressionType: string, quality: int): PhpValue {
    PArray([("compression_type", PStr(compressionType)), ("quality", PInt(quality))])
  }

  /** The two handlers store the same pairs in different orders. */
  lemma SettingsValuesDiffer(quality: int, compressionType: string)
    ensures BulkSettingsValue(quality, compressionType) != AjaxSettingsValue(compressionType, quality)
    ensures multiset(BulkSettingsValue(quality, compressionType).entries)
         == multiset(AjaxSettingsValue(compressionType, quality).entries)
  {
    assert BulkSettingsValue(quality, compressionType).entries[0].0 == "quality";
  }

  /** The five update_post_meta calls after a successful optimisation. */
  function RecordOptimization(meta: Meta, id: int, originalSize: int, optimizedSize: int,
                              savings: int, settingsValue: PhpValue): (r: Meta)
    ensures forall k :: k in SlimSnapKeys() ==> (id, k) in r
    ensures r[(id, OptimizedKey)] == PBool(true) && r[(id, SavingsKey)] == PDecimal(savings)
    ensures r[(id, OriginalSizeKey)] == PInt(originalSize) && r[(id, OptimizedSizeKey)] == PInt(optimizedSize)
    ensures r[(id, SettingsKey)] == settingsValue
    ensures forall key :: key in meta && (key.0 != id || key.1 !in SlimSnapKeys()) ==> key in r && r[key] == meta[key]
  {
    meta[(id, SettingsKey) := settingsValue][(id, OptimizedKey) := PBool(true)]
        [(id, OriginalSizeKey) := PInt(originalSize)][(id, OptimizedSizeKey) := PInt(optimizedSize)]
        [(id, SavingsKey) := PDecimal(savings)]
  }

  /** Deleting the SlimSnap meta undoes recording an optimisation. */
  lemma RevertErasesRecord(meta: Meta, id: int, originalSize: int, optimizedSize: int,
                           savings: int, settingsValue: PhpValue)
    ensures WithoutSlimSnapMeta(RecordOptimization(meta, id, originalSize, optimizedSize, savings, settingsValue), id)
         == WithoutSlimSnapMeta(meta, id)
  {
    var recorded := RecordOptimization(meta, id, originalSize, optimizedSize, savings, settingsValue);
    var a := WithoutSlimSnapMeta(recorded, id);
    var b := WithoutSlimSnapMeta(meta, id);
    assert forall key :: key in a <==> key in b;
  }

  // ---------------------------------------------------------------------
  // The two reverts

  /** The basename get_attached_file's result gives; a missing file reads
      as '' and names the backup directory itself. */
  function SlotName(file: Option<Path>): string {
    if file.Some? then Basename(file.value) else ""
  }

  /** file_exists() of the backup slot: for an empty name the slot is the
      backup directory, which exists when `backupDirExists`. */
  predicate SlotExists(files: map<Path, Bytes>, backupDirExists: bool, file: Option<Path>) {
    if SlotName(file) == "" then backupDirExists else BackupDir + "/" + SlotName(file) in files
  }

  /** What revert_optimization leaves. */
  datatype RevertState = RevertState(reverted: bool, files: map<Path, Bytes>, meta: Meta)

  /** revert_optimization: with a backup, copy it over the file, delete
      it, delete the meta and report true; without one, report false. When
      the slot is the directory, the copy and the unlink both fail but the
      meta is still deleted and true reported. */
  function Reverted(files: map<Path, Bytes>, readOnly: set<Path>, backupDirExists: bool,
                    meta: Meta, file: Option<Path>, id: int): RevertState
  {
    if !SlotExists(files, backupDirExists, file) then RevertState(false, files, meta)
    else if SlotName(file) == "" then RevertState(true, files, WithoutSlimSnapMeta(meta, id))
    else
      var slot := BackupPath(file.value);
      RevertState(true, AfterCopy(files, readOnly, slot, file.value) - {slot}, WithoutSlimSnapMeta(meta, id))
  }

  /** For a file outside the backup directory: the revert succeeds exactly
      when the backup exists; it then gives the file the backup's bytes
      (when it can be written), deletes the backup and the five meta keys;
      so a second revert reports false and changes nothing. */
  lemma RevertDeletesBackup(files: map<Path, Bytes>, readOnly: set<Path>, backupDirExists: bool,
                            meta: Meta, path: Path, id: int)
    requires Basename(path) != "" && BackupPath(path) != path
    ensures var r := Reverted(files, readOnly, backupDirExists, meta, Some(path), id);
      && (r.reverted <==> BackupPath(path) in files)
      && (r.reverted ==> BackupPath(path) !in r.files && r.meta == WithoutSlimSnapMeta(meta, id))
      && (r.reverted && path !in readOnly ==> path in r.files && r.files[path] == files[BackupPath(path)])
      && (!r.reverted ==> r.files == files && r.meta == meta)
      && Reverted(r.files, readOnly, backupDirExists, r.meta, Some(path), id) == RevertState(false, r.files, r.meta)
  {
  }

  /** Without an attached file the slot is the backup directory: the
      revert reports true, touches no file, and does so every time. */
  lemma RevertWithoutFile(files: map<Path, Bytes>, readOnly: set<Path>, meta: Meta, id: int)
    ensures var r := Reverted(files, readOnly, true, meta, None, id);
      && r == RevertState(true, files, WithoutSlimSnapMeta(meta, id))
      && Reverted(r.files, readOnly, true, r.meta, None, id).reverted
  {
  }

  /** A JSON response: wp_send_json_success or wp_send_json_error. */
  datatype Response = JsonSuccess(message: string) | JsonError(message: string)

  const InvalidId: string := "Invalid attachment ID"
  const BackupFileNotFound: string := "Backup file not found"
  const RevertSucceeded: string := "Image successfully reverted"
  const RevertFailed: string := "Failed to restore original image"

  /** What ajax_revert_optimization leaves (the attachment metadata aside). */
  datatype AjaxRevertState = AjaxRevertState(response: Response, files: map<Path, Bytes>, meta: Meta)

  /** ajax_revert_optimization: id 0 is invalid; without a backup it
      reports so; a successful copy deletes the meta and keeps the backup. */
  function AjaxReverted(files: map<Path, Bytes>, readOnly: set<Path>, backupDirExists: bool,
                        meta: Meta, file: Option<Path>, id: int): AjaxRevertState
  {
    if id == 0 then AjaxRevertState(JsonError(InvalidId), files, meta)
    else if !SlotExists(files, backupDirExists, file) then AjaxRevertState(JsonError(BackupFileNotFound), files, meta)
    else if SlotName(file) == "" || !CanCopy(files, readOnly, BackupPath(file.value), file.value) then
      AjaxRevertState(JsonError(RevertFailed), files, meta)
    else
      AjaxRevertState(JsonSuccess(RevertSucceeded), AfterCopy(files, readOnly, BackupPath(file.value), file.value),
                      WithoutSlimSnapMeta(meta, id))
  }

  /** The AJAX revert's answers: id 0 is invalid; a missing backup is
      'Backup file not found'; with a backup, the revert succeeds exactly
      when the copy can be made and is 'Failed to restore original image'
      otherwise. A success gives the file the backup's bytes, keeps the
      backup and deletes the meta; every error changes nothing; and a
      successful revert can be repeated with the same effect. */
  lemma AjaxRevertKeepsBackup(files: map<Path, Bytes>, readOnly: set<Path>, backupDirExists: bool,
                              meta: Meta, file: Option<Path>, id: int)
    ensures var r := AjaxReverted(files, readOnly, backupDirExists, meta, file, id);
      && (r.response.JsonError? ==> r.files == files && r.meta == meta)
      && (r.response == JsonError(InvalidId) <==> id == 0)
      && (id != 0 && !SlotExists(files, backupDirExists, file) ==> r.response == JsonError(BackupFileNotFound))
      && (id != 0 && SlotExists(files, backupDirExists, file) ==>
            && (r.response.JsonSuccess? <==>
                  SlotName(file) != "" && CanCopy(files, readOnly, BackupPath(file.value), file.value))
            && (!r.response.JsonSuccess? ==> r.response == JsonError(RevertFailed)))
      && (r.response.JsonSuccess? ==> r.response == JsonSuccess(RevertSucceeded))
      && (r.response.JsonSuccess? ==>
            && file.Some? && id != 0
            && BackupPath(file.value) in r.files
            && r.files[BackupPath(file.value)] == files[BackupPath(file.value)]
            && r.files[file.value] == files[BackupPath(file.value)]
            && r.meta == WithoutSlimSnapMeta(meta, id)
            && AjaxReverted(r.files, readOnly, backupDirExists, r.meta, file, id) == r)
  {
    var r := AjaxReverted(files, readOnly, backupDirExists, meta, file, id);
    if r.response.JsonSuccess? {
      var path, slot := file.value, BackupPath(file.value);
      assert r.files == files[path := files[slot]];
      assert r.files[path := r.files[slot]] == r.files;
      assert WithoutSlimSnapMeta(r.meta, id) == r.meta;
    }
  }

  /** The two reverts part on the backup: after the same successful
      restore of a file outside the backup directory, revert_optimization
      has deleted the backup and ajax_revert_optimization has kept it. */
  lemma RevertsDiffer(files: map<Path, Bytes>, readOnly: set<Path>, meta: Meta, path: Path, id: int)
    requires id != 0 && Basename(path) != "" && BackupPath(path) != path
    requires BackupPath(path) in files && path !in readOnly
    ensures Reverted(files, readOnly, true, meta, Some(path), id).reverted
    ensures AjaxReverted(files, readOnly, true, meta, Some(path), id).response == JsonSuccess(RevertSucceeded)
    ensures BackupPath(path) !in Reverted(files, readOnly, true, meta, Some(path), id).files
    ensures BackupPath(path) in AjaxReverted(files, readOnly, true, meta, Some(path), id).files
    ensures Reverted(files, readOnly, true, meta, Some(path), id).files[path]
         == AjaxReverted(files, readOnly, true, meta, Some(path), id).files[path]
  {
  }

  // ---------------------------------------------------------------------
  // optimize_thumbnails

  /** The size entries after the loop: an entry whose optimisation
      succeeded gets the reported optimized size; every other entry, and
      every entry the loop did not reach, is unchanged. */
  function ApplyThumbnailResults(sizes: seq<SizeEntry>, outcomes: seq<Option<Outcome>>): (r: seq<SizeEntry>)
    requires |outcomes| <= |sizes|
    ensures |r| == |sizes|
    ensures forall k :: 0 <= k < |sizes| ==> r[k].name == sizes[k].name && r[k].file == sizes[k].file
    ensures forall k :: 0 <= k < |outcomes| && outcomes[k].Some? && outcomes[k].value.Optimized? ==>
      r[k].filesize == Some(outcomes[k].value.optimizedSize)
    ensures forall k :: 0 <= k < |sizes| && (k >= |outcomes| || outcomes[k].None? || !outcomes[k].value.Optimized?) ==>
      r[k] == sizes[k]
  {
    if outcomes == [] then sizes
    else
      var rest := ApplyThumbnailResults(sizes[1..], outcomes[1..]);
      var head := if outcomes[0].Some? && outcomes[0].value.Optimized?
                  then sizes[0].(filesize := Some(outcomes[0].value.optimizedSize)) else sizes[0];
      assert forall k :: 1 <= k < |sizes| ==> ([head] + rest)[k] == rest[k - 1] && sizes[1..][k - 1] == sizes[k];
      [head] + rest
  }

  /** ApplyThumbnailResults grows one outcome at a time. */
  lemma {:induction false} ApplyOneMore(sizes: seq<SizeEntry>, outcomes: seq<Option<Outcome>>, next: Option<Outcome>)
    requires |outcomes| < |sizes|
    ensures ApplyThumbnailResults(sizes, outcomes + [next])
         == (var r := ApplyThumbnailResults(sizes, outcomes);
             if next.Some? && next.value.Optimized?
             then r[|outcomes| := sizes[|outcomes|].(filesize := Some(next.value.optimizedSize))] else r)
  {
    var a := ApplyThumbnailResults(sizes, outcomes + [next]);
    var r := ApplyThumbnailResults(sizes, outcomes);
    var b := if next.Some? && next.value.Optimized?
             then r[|outcomes| := sizes[|outcomes|].(filesize := Some(next.value.optimizedSize))] else r;
    assert |a| == |b|;
    forall k | 0 <= k < |a|
      ensures a[k] == b[k]
    {
      if k < |outcomes| {
        assert (outcomes + [next])[k] == outcomes[k];
      } else if k == |outcomes| {
        assert (outcomes + [next])[k] == next;
      }
    }
  }

  // ---------------------------------------------------------------------
  // The batch

  /** The $args of bulk_optimize_images after wp_parse_args. */
  datatype BatchArgs = BatchArgs(limit: int, offset: int, compressionType: string, quality: int)

  function ParseBatchArgs(limit: Option<int>, offset: Option<int>, compressionType: Option<string>,
                          quality: Option<int>): (a: BatchArgs)
    ensures limit.None? ==> a.limit == 10
    ensures offset.None? ==> a.offset == 0
    ensures compressionType.None? ==> a.compressionType == "lossy"
    ensures quality.None? ==> a.quality == 80
    ensures limit.Some? ==> a.limit == limit.value
    ensures offset.Some? ==> a.offset == offset.value
    ensures compressionType.Some? ==> a.compressionType == compressionType.value
    ensures quality.Some? ==> a.quality == quality.value
  {
    BatchArgs(match limit case Some(l) => l case None => 10,
              match offset case Some(o) => o case None => 0,
              match compressionType case Some(t) => t case None => "lossy",
              match quality case Some(q) => q case None => 80)
  }

  /** The $results array. */
  datatype BatchResults = BatchResults(success: seq<(int, int)>, failed: seq<(int, string)>, totalSaved: int)

  /** What happened to one selected attachment: no file, or the outcome of
      optimize_image together with the message of an Exception thrown by
      optimize_thumbnails afterwards. */
  datatype ItemReport = FileMissing | Processed(outcome: Outcome, thumbnailError: Option<string>)

  /** The entries bulk_optimize_images appends for one item as written: a
      thumbnail Exception after a successful main image is caught by the
      same catch block, so the item is appended to 'failed' as well. */
  function ItemEntries(id: int, report: ItemReport): (seq<(int, int)>, seq<(int, string)>) {
    match report
    case FileMissing => ([], [(id, FileNotFound)])
    case Processed(Optimized(o, p, _), None) => ([(id, o - p)], [])
    case Processed(Optimized(o, p, _), Some(e)) => ([(id, o - p)], [(id, e)])
    case Processed(Failed(m), _) => ([], [(id, m)])
    case Processed(Thrown(m), _) => ([], [(id, m)])
  }

  /** The entries for one item when thumbnail failures are kept apart from
      the item's own result: each item is listed once. */
  function IsolatedItemEntries(id: int, report: ItemReport): (seq<(int, int)>, seq<(int, string)>) {
    match report
    case FileMissing => ([], [(id, FileNotFound)])
    case Processed(Optimized(o, p, _), _) => ([(id, o - p)], [])
    case Processed(Failed(m), _) => ([], [(id, m)])
    case Processed(Thrown(m), _) => ([], [(id, m)])
  }

  function Savings(entries: seq<(int, int)>): int {
    if entries == [] then 0 else Savings(entries[..|entries| - 1]) + entries[|entries| - 1].1
  }

  function SuccessIds(entries: seq<(int, int)>): seq<int> {
    seq(|entries|, k requires 0 <= k < |entries| => entries[k].0)
  }

  function FailedIds(entries: seq<(int, string)>): seq<int> {
    seq(|entries|, k requires 0 <= k < |entries| => entries[k].0)
  }

  /** The results after the loop has handled ids with these reports. */
  function Summarize(ids: seq<int>, reports: seq<ItemReport>, isolate: bool): BatchResults
    requires |reports| == |ids|
  {
    if ids == [] then BatchResults([], [], 0)
    else
      var n := |ids| - 1;
      var prev := Summarize(ids[..n], reports[..n], isolate);
      var entries := if isolate then IsolatedItemEntries(ids[n], reports[n]) else ItemEntries(ids[n], reports[n]);
      BatchResults(prev.success + entries.0, prev.failed + entries.1, prev.totalSaved + Savings(entries.0))
  }

  /** Handling one more item appends its entries to the results so far. */
  lemma SummarizeStep(ids: seq<int>, reports: seq<ItemReport>, report: ItemReport, i: int, isolate: bool)
    requires 0 <= i < |ids| && |reports| == i
    ensures var prev := Summarize(ids[..i], reports, isolate);
      var entries := if isolate then IsolatedItemEntries(ids[i], report) else ItemEntries(ids[i], report);
      Summarize(ids[..i + 1], reports + [report], isolate)
        == BatchResults(prev.success + entries.0, prev.failed + entries.1, prev.totalSaved + Savings(entries.0))
  {
    assert ids[..i + 1][..i] == ids[..i];
    assert (reports + [report])[..i] == reports;
  }

  /** Every reported success saved a non-negative number of bytes. */
  predicate SavesBytes(reports: seq<ItemReport>) {
    forall k :: 0 <= k < |reports| && reports[k].Processed? && reports[k].outcome.Optimized? ==>
      reports[k].outcome.optimizedSize <= reports[k].outcome.originalSize
  }

  lemma {:induction false} SavingsAppend(a: seq<(int, int)>, b: seq<(int, int)>)
    ensures Savings(a + b) == Savings(a) + Savings(b)
  {
    if b != [] {
      assert (a + b)[..|a + b| - 1] == a + b[..|b| - 1];
      SavingsAppend(a, b[..|b| - 1]);
    } else {
      assert a + b == a;
    }
  }

  /** total_saved is the sum of the 'savings' of the success entries,
      each of which is non-negative, so the total is too. */
  lemma {:induction false} BatchTotals(ids: seq<int>, reports: seq<ItemReport>, isolate: bool)
    requires |reports| == |ids| && SavesBytes(reports)
    ensures var r := Summarize(ids, reports, isolate);
      && r.totalSaved == Savings(r.success)
      && (forall k :: 0 <= k < |r.success| ==> r.success[k].1 >= 0)
      && r.totalSaved >= 0
  {
    if ids != [] {
      var n := |ids| - 1;
      assert SavesBytes(reports[..n]);
      BatchTotals(ids[..n], reports[..n], isolate);
      var prev := Summarize(ids[..n], reports[..n], isolate);
      var entries := if isolate then IsolatedItemEntries(ids[n], reports[n]) else ItemEntries(ids[n], reports[n]);
      SavingsAppend(prev.success, entries.0);
      assert SavesBytes([reports[n]]) by {
        assert [reports[n]][0] == reports[n];
      }
      SuccessEntry(ids[n], reports[n], isolate);
      var r := Summarize(ids, reports, isolate);
      assert r.success == prev.success + entries.0;
      forall k | 0 <= k < |r.success|
        ensures r.success[k].1 >= 0
      {
        if k >= |prev.success| {
          assert r.success[k] == entries.0[0];
        }
      }
    }
  }

  /** An item contributes at most one success entry, carrying the bytes
      its main image saved, and only when that image was optimised. */
  lemma SuccessEntry(id: int, report: ItemReport, isolate: bool)
    requires SavesBytes([report])
    ensures var e := if isolate then IsolatedItemEntries(id, report) else ItemEntries(id, report);
      && |e.0| <= 1
      && (e.0 != [] <==> report.Processed? && report.outcome.Optimized?)
      && (e.0 != [] ==> e.0[0] == (id, report.outcome.originalSize - report.outcome.optimizedSize) && e.0[0].1 >= 0)
      && Savings(e.0) == (if e.0 == [] then 0 else e.0[0].1)
      && Savings(e.0) >= 0
  {
    assert [report][0] == report;
    var e := if isolate then IsolatedItemEntries(id, report) else ItemEntries(id, report);
    if e.0 != [] {
      assert e.0[..0] == [];
    }
  }

  /** Every selected ID is listed: as written, in 'success' or 'failed'
      or both. */
  lemma {:induction false} EveryItemListed(ids: seq<int>, reports: seq<ItemReport>)
    requires |reports| == |ids|
    ensures var r := Summarize(ids, reports, false);
      forall k :: 0 <= k < |ids| ==> ids[k] in SuccessIds(r.success) || ids[k] in FailedIds(r.failed)
  {
    if ids != [] {
      var n := |ids| - 1;
      EveryItemListed(ids[..n], reports[..n]);
      var prev := Summarize(ids[..n], reports[..n], false);
      var r := Summarize(ids, reports, false);
      assert SuccessIds(r.success)[..|prev.success|] == SuccessIds(prev.success);
      assert FailedIds(r.failed)[..|prev.failed|] == FailedIds(prev.failed);
      forall k | 0 <= k < |ids|
        ensures ids[k] in SuccessIds(r.success) || ids[k] in FailedIds(r.failed)
      {
        if k < n {
          assert ids[k] == ids[..n][k];
        } else if reports[n].FileMissing? || !reports[n].outcome.Optimized? {
          assert FailedIds(r.failed)[|prev.failed|] == ids[n];
        } else {
          assert SuccessIds(r.success)[|prev.success|] == ids[n];
        }
      }
    }
  }

  /** As written, an item whose main image succeeded and whose thumbnails
      then threw is listed in both 'success' and 'failed', and its savings
      count towards total_saved. */
  lemma ThumbnailExceptionListsItemTwice()
    ensures var r := Summarize([7], [Processed(Optimized(100, 50, 5000), Some(SaveFailed))], false);
      && r.success == [(7, 50)]
      && r.failed == [(7, SaveFailed)]
      && r.totalSaved == 50
  {
    var ids: seq<int> := [7];
    assert ids[..0] == [];
  }

  /** With thumbnail failures kept apart, the 'success' and 'failed' IDs
      together are exactly the selected IDs: each item is listed once. */
  lemma {:induction false} IsolatedItemListedOnce(ids: seq<int>, reports: seq<ItemReport>)
    requires |reports| == |ids|
    ensures var r := Summarize(ids, reports, true);
      multiset(SuccessIds(r.success)) + multiset(FailedIds(r.failed)) == multiset(ids)
  {
    if ids != [] {
      var n := |ids| - 1;
      IsolatedItemListedOnce(ids[..n], reports[..n]);
      var prev := Summarize(ids[..n], reports[..n], true);
      var entries := IsolatedItemEntries(ids[n], reports[n]);
      SuccessIdsAppend(prev.success, entries.0);
      FailedIdsAppend(prev.failed, entries.1);
      IsolatedEntryOnce(ids[n], reports[n]);
      assert ids == ids[..n] + [ids[n]];
    }
  }

  lemma SuccessIdsAppend(a: seq<(int, int)>, b: seq<(int, int)>)
    ensures SuccessIds(a + b) == SuccessIds(a) + SuccessIds(b)
  {
  }

  lemma FailedIdsAppend(a: seq<(int, string)>, b: seq<(int, string)>)
    ensures FailedIds(a + b) == FailedIds(a) + FailedIds(b)
  {
  }

  /** Kept apart from thumbnail failures, an item has exactly one entry. */
  lemma IsolatedEntryOnce(id: int, report: ItemReport)
    ensures var e := IsolatedItemEntries(id, report);
      multiset(SuccessIds(e.0)) + multiset(FailedIds(e.1)) == multiset{id}
  {
    var e := IsolatedItemEntries(id, report);
    if e.0 == [] {
      assert FailedIds(e.1) == [id];
    } else {
      assert SuccessIds(e.0) == [id] && e.1 == [];
    }
  }

  // ---------------------------------------------------------------------
  // cleanup_temp_files

  /** glob(uploads . '/slimsnap-*'): a file directly in the uploads
      directory whose name starts with 'slimsnap-'. */
  predicate IsSlimSnapFile(p: Path) {
    var prefix := UploadsDir + "/slimsnap-";
    |p| >= |prefix| && p[..|prefix|] == prefix && NoSlash(p[|prefix|..])
  }

  /** `$file && file_exists($file)`: a truthy name of an existing file. */
  predicate Named(files: map<Path, Bytes>, file: Option<Path>) {
    file.Some? && !Empty(PStr(file.value)) && file.value in files
  }

  /** The files cleanup_temp_files removes: the named temp and preview
      files, then every globbed file last modified over an hour ago. */
  function CleanedUp(files: map<Path, Bytes>, tempFile: Option<Path>, previewFile: Option<Path>,
                     now: int, mtime: Path -> int): (r: map<Path, Bytes>)
    ensures forall p :: p in r ==> p in files && r[p] == files[p]
    ensures forall p :: p in files && IsSlimSnapFile(p) && mtime(p) < now - 3600 ==> p !in r
    ensures Named(files, tempFile) ==> tempFile.value !in r
    ensures Named(files, previewFile) ==> previewFile.value !in r
    ensures forall p :: (p in files && !(IsSlimSnapFile(p) && mtime(p) < now - 3600)
                         && !(Named(files, tempFile) && p == tempFile.value)
                         && !(Named(files, previewFile) && p == previewFile.value)) ==> p in r
  {
    var named := (if Named(files, tempFile) then {tempFile.value} else {})
               + (if Named(files, previewFile) then {previewFile.value} else {});
    var stale := set p | p in files && IsSlimSnapFile(p) && mtime(p) < now - 3600;
    files - named - stale
  }

  // ---------------------------------------------------------------------
  // ajax_get_optimized_images paging

  const PerPage: int := 20

  /** ($page - 1) * $per_page */
  function PageOffset(page: int): int {
    (page - 1) * PerPage
  }

  /** ceil($total / $per_page) */
  function TotalPages(total: nat): int {
    (total + PerPage - 1) / PerPage
  }

  /** The pages 1..TotalPages(total) are exactly enough: each row k of the
      listing falls on page k / 20 + 1, which is one of them, and the last
      page is not empty. */
  lemma PagingCoversRows(total: nat, k: int)
    requires 0 <= k < total
    ensures var page := k / PerPage + 1;
      1 <= page <= TotalPages(total) && PageOffset(page) <= k < PageOffset(page) + PerPage
    ensures PageOffset(TotalPages(total)) < total <= PageOffset(TotalPages(total)) + PerPage
  {
    var t := TotalPages(total);
    assert (total - 1) / PerPage + 1 == t;
  }

  // ---------------------------------------------------------------------
  // The effect of each handler on the site's state

  /** What a handler reads and never changes: the posts, the paths a copy
      cannot write, GD, and wp_generate_attachment_metadata as a function
      of the post, its file and the file system. */
  datatype Environment = Environment(posts: seq<Post>, readOnly: set<Path>, codec: Codec,
                                     regenerate: (int, Path, map<Path, Bytes>) -> Option<AttachmentMetadata>)

  /** What a handler changes: the files, the uniqid() clock, the post meta
      and the attachment metadata. */
  datatype SiteState = SiteState(files: map<Path, Bytes>, clock: nat, meta: Meta,
                                 metadata: map<int, AttachmentMetadata>)

  /** What the foreach of optimize_thumbnails has done: one entry per size
      reached (None for a size whose file is missing, otherwise the
      optimiser's outcome on it), the message of an Exception that left the
      loop, and the files and clock after it. */
  datatype ThumbPass = ThumbPass(outcomes: seq<Option<Outcome>>, thrown: Option<string>,
                                 files: map<Path, Bytes>, clock: nat)

  /** A pass whose first entries are `done`, followed by `rest`. */
  function Preceded(done: seq<Option<Outcome>>, rest: ThumbPass): ThumbPass {
    rest.(outcomes := done + rest.outcomes)
  }

  /** The foreach of optimize_thumbnails over `sizes`, each file looked up
      in `baseDir`: a missing file is skipped; otherwise the optimiser runs
      on it against the files as the earlier sizes left them, and an
      Exception from it ends the loop. */
  ghost function ThumbnailPass(files: map<Path, Bytes>, readOnly: set<Path>, clock: nat, sizes: seq<SizeEntry>,
                               baseDir: Path, s: Settings, codec: Codec): ThumbPass
    requires ValidCodec(codec)
    decreases |sizes|
  {
    if sizes == [] then ThumbPass([], None, files, clock)
    else
      var thumb := baseDir + "/" + sizes[0].file;
      if thumb !in files then
        Preceded([None], ThumbnailPass(files, readOnly, clock, sizes[1..], baseDir, s, codec))
      else
        var step := OptimizeAt(files, readOnly, clock, thumb, s, codec);
        if step.outcome.Thrown? then ThumbPass([Some(step.outcome)], Some(step.outcome.message), step.files, step.clock)
        else Preceded([Some(step.outcome)], ThumbnailPass(step.files, readOnly, step.clock, sizes[1..], baseDir, s, codec))
  }

  lemma PrecededTwice(done: seq<Option<Outcome>>, more: seq<Option<Outcome>>, rest: ThumbPass)
    ensures Preceded(done, Preceded(more, rest)) == Preceded(done + more, rest)
  {
    assert done + (more + rest.outcomes) == (done + more) + rest.outcomes;
  }

  /** One turn of the foreach of optimize_thumbnails, in terms of what
      the optimiser did on the first size. */
  lemma ThumbnailPassStep(files: map<Path, Bytes>, readOnly: set<Path>, clock: nat, sizes: seq<SizeEntry>,
                          baseDir: Path, s: Settings, codec: Codec,
                          result: Option<Outcome>, after: map<Path, Bytes>, clockAfter: nat)
    requires ValidCodec(codec) && sizes != []
    requires result.None? <==> baseDir + "/" + sizes[0].file !in files
    requires result.None? ==> after == files && clockAfter == clock
    requires result.Some? ==>
      Step(result.value, after, clockAfter) == OptimizeAt(files, readOnly, clock, baseDir + "/" + sizes[0].file, s, codec)
    ensures result.Some? && result.value.Thrown? ==>
      ThumbnailPass(files, readOnly, clock, sizes, baseDir, s, codec)
        == ThumbPass([result], Some(result.value.message), after, clockAfter)
    ensures !(result.Some? && result.value.Thrown?) ==>
      ThumbnailPass(files, readOnly, clock, sizes, baseDir, s, codec)
        == Preceded([result], ThumbnailPass(after, readOnly, clockAfter, sizes[1..], baseDir, s, codec))
  {
  }

  /** Entries as the loop leaves them: an Exception that ended the loop
      is the last entry, and no earlier entry is one. */
  ghost predicate ThrownLast(outcomes: seq<Option<Outcome>>, thrown: Option<string>) {
    && (thrown.Some? ==> |outcomes| >= 1 && outcomes[|outcomes| - 1] == Some(Thrown(thrown.value)))
    && forall k :: 0 <= k < |outcomes| - 1 ==> outcomes[k].None? || !outcomes[k].value.Thrown?
  }

  lemma ThrownLastCons(first: Option<Outcome>, outcomes: seq<Option<Outcome>>, thrown: Option<string>)
    requires first.None? || !first.value.Thrown?
    requires ThrownLast(outcomes, thrown) && (thrown.None? || outcomes != [])
    ensures ThrownLast([first] + outcomes, thrown)
  {
    assert forall k :: 1 <= k < |outcomes| + 1 ==> ([first] + outcomes)[k] == outcomes[k - 1];
  }

  /** The loop reaches every size unless an Exception ends it; that
      Exception is the last entry and no earlier entry is one. */
  lemma {:induction false} ThumbnailPassShape(files: map<Path, Bytes>, readOnly: set<Path>, clock: nat,
                                              sizes: seq<SizeEntry>, baseDir: Path, s: Settings, codec: Codec)
    requires ValidCodec(codec)
    decreases |sizes|
    ensures var pass := ThumbnailPass(files, readOnly, clock, sizes, baseDir, s, codec);
      && |pass.outcomes| <= |sizes|
      && (pass.thrown.None? ==> |pass.outcomes| == |sizes|)
      && ThrownLast(pass.outcomes, pass.thrown)
  {
    if sizes != [] {
      var thumb := baseDir + "/" + sizes[0].file;
      var first: Option<Outcome>, after, clockAfter := None, files, clock;
      if thumb in files {
        var step := OptimizeAt(files, readOnly, clock, thumb, s, codec);
        first, after, clockAfter := Some(step.outcome), step.files, step.clock;
      }
      ThumbnailPassStep(files, readOnly, clock, sizes, baseDir, s, codec, first, after, clockAfter);
      if !(first.Some? && first.value.Thrown?) {
        ThumbnailPassShape(after, readOnly, clockAfter, sizes[1..], baseDir, s, codec);
        var rest := ThumbnailPass(after, readOnly, clockAfter, sizes[1..], baseDir, s, codec);
        ThrownLastCons(first, rest.outcomes, rest.thrown);
      }
    }
  }

  /** A skipped size is one whose file is missing when the loop reaches
      it, so with no thumbnail files at all the loop touches nothing. */
  lemma {:induction false} ThumbnailPassSkipsMissing(files: map<Path, Bytes>, readOnly: set<Path>, clock: nat,
                                                     sizes: seq<SizeEntry>, baseDir: Path, s: Settings, codec: Codec)
    requires ValidCodec(codec)
    requires forall k :: 0 <= k < |sizes| ==> baseDir + "/" + sizes[k].file !in files
    decreases |sizes|
    ensures ThumbnailPass(files, readOnly, clock, sizes, baseDir, s, codec)
         == ThumbPass(seq(|sizes|, _ => None), None, files, clock)
  {
    if sizes != [] {
      var tail := sizes[1..];
      assert forall k :: 0 <= k < |tail| ==> tail[k] == sizes[k + 1];
      ThumbnailPassSkipsMissing(files, readOnly, clock, tail, baseDir, s, codec);
      assert [None] + seq(|tail|, _ => None) == seq<Option<Outcome>>(|sizes|, _ => None);
    }
  }

  /** optimize_thumbnails for attachment `id`: nothing happens unless its
      metadata has sizes; otherwise the sizes are looked up next to the
      attached file, the loop runs, and the metadata is saved with the new
      file sizes only when no Exception left the loop. */
  datatype ThumbsDone = ThumbsDone(thrown: Option<string>, metadata: map<int, AttachmentMetadata>,
                                   files: map<Path, Bytes>, clock: nat)

  ghost function ThumbnailsOptimized(env: Environment, md: map<int, AttachmentMetadata>, files: map<Path, Bytes>,
                                     clock: nat, id: int, s: Settings): ThumbsDone
    requires ValidCodec(env.codec)
  {
    if id !in md || md[id].sizes.None? then ThumbsDone(None, md, files, clock)
    else
      var file := AttachedFile(env.posts, id);
      var sizes := md[id].sizes.value;
      var pass := ThumbnailPass(files, env.readOnly, clock, sizes, ThumbnailDir(file), s, env.codec);
      ThumbnailPassShape(files, env.readOnly, clock, sizes, ThumbnailDir(file), s, env.codec);
      ThumbsDone(pass.thrown,
                 if pass.thrown.None? then md[id := md[id].(sizes := Some(ApplyThumbnailResults(sizes, pass.outcomes)))]
                 else md,
                 pass.files, pass.clock)
  }

  /** dirname(get_attached_file($id)); a missing file reads as ''. */
  function ThumbnailDir(file: Option<Path>): Path {
    Dirname(if file.Some? then file.value else "")
  }

  /** The metadata step of the batch after a success: truthy metadata gets
      the optimized size, with the regenerated metadata merged over it. */
  function Refreshed(md: map<int, AttachmentMetadata>, id: int, optimizedSize: int,
                     regenerated: Option<AttachmentMetadata>): map<int, AttachmentMetadata>
  {
    if HasMetadata(md, id) then md[id := MergeMetadata(md[id].(filesize := Some(optimizedSize)), regenerated)] else md
  }

  /** The settings array the batch passes to the optimiser. */
  function BatchSettings(args: BatchArgs): Settings {
    Settings(args.compressionType, args.quality)
  }

  /** One pass of the batch loop: its report and the state it leaves. */
  datatype ItemRun = ItemRun(report: ItemReport, state: SiteState)

  /** The batch loop's body for an attachment whose file exists, once the
      optimiser has succeeded: the five meta keys, the refreshed metadata,
      then the thumbnails, whose Exception is the report's thumbnailError. */
  ghost function BulkSuccess(env: Environment, st: SiteState, id: int, path: Path, r: Outcome, args: BatchArgs): ItemRun
    requires ValidCodec(env.codec) && r.Optimized?
  {
    var meta := RecordOptimization(st.meta, id, r.originalSize, r.optimizedSize, r.savings,
                                   BulkSettingsValue(args.quality, args.compressionType));
    var md := Refreshed(st.metadata, id, r.optimizedSize, env.regenerate(id, path, st.files));
    var t := ThumbnailsOptimized(env, md, st.files, st.clock, id, BatchSettings(args));
    ItemRun(Processed(r, t.thrown), SiteState(t.files, t.clock, meta, t.metadata))
  }

  /** The batch loop's body for an attachment whose file exists. */
  ghost function BulkFile(env: Environment, st: SiteState, id: int, path: Path, args: BatchArgs): ItemRun
    requires ValidCodec(env.codec)
  {
    var step := OptimizeAt(st.files, env.readOnly, st.clock, path, BatchSettings(args), env.codec);
    var after := st.(files := step.files, clock := step.clock);
    if step.outcome.Optimized? then BulkSuccess(env, after, id, path, step.outcome, args)
    else ItemRun(Processed(step.outcome, None), after)
  }

  /** The batch loop's body for one selected ID. */
  ghost function BulkItem(env: Environment, st: SiteState, id: int, args: BatchArgs): ItemRun
    requires ValidCodec(env.codec)
  {
    var file := AttachedFile(env.posts, id);
    if file.None? || file.value !in st.files then ItemRun(FileMissing, st)
    else BulkFile(env, st, id, file.value, args)
  }

  /** The reports of the batch loop and the state after it. */
  datatype BatchRun = BatchRun(reports: seq<ItemReport>, state: SiteState)

  /** A run whose first reports are `done`, followed by `rest`. */
  function Followed(done: seq<ItemReport>, rest: BatchRun): BatchRun {
    rest.(reports := done + rest.reports)
  }

  /** The foreach of bulk_optimize_images: each ID in turn, on the state the
      earlier ones left. */
  ghost function BulkItems(env: Environment, st: SiteState, ids: seq<int>, args: BatchArgs): BatchRun
    requires ValidCodec(env.codec)
    decreases |ids|
  {
    if ids == [] then BatchRun([], st)
    else
      var item := BulkItem(env, st, ids[0], args);
      Followed([item.report], BulkItems(env, item.state, ids[1..], args))
  }

  /** One item of the batch, in words: a missing file is reported and
      changes nothing; otherwise the report carries the optimiser's outcome
      on the attached file; only a success writes meta, and then exactly the
      five keys with the batch's settings; a thumbnail Exception can be
      reported only after a success, and is the one optimize_thumbnails
      threw. */
  lemma BulkItemEffect(env: Environment, st: SiteState, id: int, args: BatchArgs)
    requires ValidCodec(env.codec)
    ensures var item := BulkItem(env, st, id, args);
      var file := AttachedFile(env.posts, id);
      && (item.report.FileMissing? <==> file.None? || file.value !in st.files)
      && (item.report.FileMissing? ==> item.state == st)
      && (item.report.Processed? ==>
            var step := OptimizeAt(st.files, env.readOnly, st.clock, file.value, BatchSettings(args), env.codec);
            && item.report.outcome == step.outcome
            && item.report.outcome == Optimize(st.files, env.readOnly, file.value, BatchSettings(args), env.codec,
                                               TempPath(file.value, UniqidAt(st.clock))).outcome
            && (!step.outcome.Optimized? ==>
                  item.state == SiteState(step.files, step.clock, st.meta, st.metadata) && item.report.thumbnailError.None?)
            && (step.outcome.Optimized? ==>
                  var r := step.outcome;
                  var md := Refreshed(st.metadata, id, r.optimizedSize, env.regenerate(id, file.value, step.files));
                  var t := ThumbnailsOptimized(env, md, step.files, step.clock, id, BatchSettings(args));
                  && item.state.meta == RecordOptimization(st.meta, id, r.originalSize, r.optimizedSize, r.savings,
                                                           BulkSettingsValue(args.quality, args.compressionType))
                  && item.report.thumbnailError == t.thrown
                  && item.state.files == t.files && item.state.metadata == t.metadata))
  {
  }

  /** The meta rows of an ID the batch does not select are untouched. */
  lemma {:induction false} BatchLeavesOtherMeta(env: Environment, st: SiteState, ids: seq<int>, args: BatchArgs, id: int)
    requires ValidCodec(env.codec) && id !in ids
    decreases |ids|
    ensures SameRows(BulkItems(env, st, ids, args).state.meta, st.meta, id)
  {
    if ids != [] {
      var item := BulkItem(env, st, ids[0], args);
      assert ids[0] != id;
      BulkItemMeta(env, st, ids[0], args);
      BatchLeavesOtherMeta(env, item.state, ids[1..], args, id);
      SameRowsTrans(BulkItems(env, item.state, ids[1..], args).state.meta, item.state.meta, st.meta, id);
    }
  }

  /** The meta rows of `id` after its item reported `report`: the five
      keys with the outcome's sizes and savings and the batch's settings
      after a success, the rows as they were otherwise. */
  ghost predicate MetaAfterItem(m: Meta, before: Meta, id: int, report: ItemReport, args: BatchArgs) {
    if report.Processed? && report.outcome.Optimized? then
      var r := report.outcome;
      && (id, OptimizedKey) in m && m[(id, OptimizedKey)] == PBool(true)
      && (id, OriginalSizeKey) in m && m[(id, OriginalSizeKey)] == PInt(r.originalSize)
      && (id, OptimizedSizeKey) in m && m[(id, OptimizedSizeKey)] == PInt(r.optimizedSize)
      && (id, SavingsKey) in m && m[(id, SavingsKey)] == PDecimal(r.savings)
      && (id, SettingsKey) in m && m[(id, SettingsKey)] == BulkSettingsValue(args.quality, args.compressionType)
    else
      SameRows(m, before, id)
  }

  /** `m` and `before` hold the same meta rows for `id`. */
  ghost predicate SameRows(m: Meta, before: Meta, id: int) {
    forall name: string :: ((id, name) in m <==> (id, name) in before) && ((id, name) in m ==> m[(id, name)] == before[(id, name)])
  }

  lemma SameRowsTrans(m: Meta, mid: Meta, before: Meta, id: int)
    requires SameRows(m, mid, id) && SameRows(mid, before, id)
    ensures SameRows(m, before, id)
  {
  }

  /** MetaAfterItem looks only at the rows of its ID. */
  lemma MetaAfterItemRows(m: Meta, m': Meta, before: Meta, before': Meta, id: int, report: ItemReport, args: BatchArgs)
    requires MetaAfterItem(m, before, id, report, args) && SameRows(m', m, id) && SameRows(before, before', id)
    ensures MetaAfterItem(m', before', id, report, args)
  {
  }

  /** Recording an optimisation leaves the rows of every other ID alone. */
  lemma RecordKeepsOtherRows(meta: Meta, id: int, originalSize: int, optimizedSize: int, savings: int,
                             settingsValue: PhpValue)
    ensures forall other :: other != id ==>
      SameRows(RecordOptimization(meta, id, originalSize, optimizedSize, savings, settingsValue), meta, other)
  {
  }

  /** One item writes only its own meta rows, as MetaAfterItem says. */
  lemma BulkItemMeta(env: Environment, st: SiteState, id: int, args: BatchArgs)
    requires ValidCodec(env.codec)
    ensures var item := BulkItem(env, st, id, args);
      && MetaAfterItem(item.state.meta, st.meta, id, item.report, args)
      && forall other :: other != id ==> SameRows(item.state.meta, st.meta, other)
  {
    var item := BulkItem(env, st, id, args);
    BulkItemEffect(env, st, id, args);
    if item.report.Processed? && item.report.outcome.Optimized? {
      var r := item.report.outcome;
      RecordKeepsOtherRows(st.meta, id, r.originalSize, r.optimizedSize, r.savings,
                           BulkSettingsValue(args.quality, args.compressionType));
    } else {
      assert item.state.meta == st.meta;
    }
  }

  /** A distinct list's tail is distinct and lacks its head. */
  lemma DistinctTail(ids: seq<int>)
    requires Distinct(ids) && ids != []
    ensures Distinct(ids[1..]) && ids[0] !in ids[1..]
  {
    var tail := ids[1..];
    forall i, j | 0 <= i < j < |tail| ensures tail[i] != tail[j] {
      assert tail[i] == ids[i + 1] && tail[j] == ids[j + 1];
    }
    forall j | 0 <= j < |tail| ensures tail[j] != ids[0] {
      assert tail[j] == ids[j + 1];
    }
  }

  /** The meta `m` after items `ids` reported `reports`, starting from
      `before`: each ID's rows as MetaAfterItem says. */
  ghost predicate EachRecorded(m: Meta, before: Meta, ids: seq<int>, reports: seq<ItemReport>, args: BatchArgs)
    requires |reports| == |ids|
  {
    forall k :: 0 <= k < |ids| ==> MetaAfterItem(m, before, ids[k], reports[k], args)
  }

  lemma EachRecordedCons(m: Meta, mid: Meta, before: Meta, ids: seq<int>, reports: seq<ItemReport>, args: BatchArgs)
    requires ids != [] && |reports| == |ids| && ids[0] !in ids[1..]
    requires MetaAfterItem(mid, before, ids[0], reports[0], args) && SameRows(m, mid, ids[0])
    requires forall other :: other != ids[0] ==> SameRows(mid, before, other)
    requires EachRecorded(m, mid, ids[1..], reports[1..], args)
    ensures EachRecorded(m, before, ids, reports, args)
  {
    MetaAfterItemRows(mid, m, before, before, ids[0], reports[0], args);
    forall k | 1 <= k < |ids| ensures MetaAfterItem(m, before, ids[k], reports[k], args) {
      assert ids[k] == ids[1..][k - 1] && reports[k] == reports[1..][k - 1];
      MetaAfterItemRows(m, m, mid, before, ids[k], reports[k], args);
    }
  }

  /** Every success of a batch over distinct IDs leaves its five meta keys
      holding the flag, the two sizes, the savings and the batch's settings;
      the meta of every other selected ID is as before the batch. */
  lemma {:induction false} BatchRecordsEachSuccess(env: Environment, st: SiteState, ids: seq<int>, args: BatchArgs)
    requires ValidCodec(env.codec) && Distinct(ids)
    decreases |ids|
    ensures var run := BulkItems(env, st, ids, args);
      |run.reports| == |ids| && EachRecorded(run.state.meta, st.meta, ids, run.reports, args)
  {
    if ids != [] {
      var item := BulkItem(env, st, ids[0], args);
      DistinctTail(ids);
      BatchRecordsEachSuccess(env, item.state, ids[1..], args);
      BatchLeavesOtherMeta(env, item.state, ids[1..], args, ids[0]);
      BulkItemMeta(env, st, ids[0], args);
      var run := BulkItems(env, st, ids, args);
      var rest := BulkItems(env, item.state, ids[1..], args);
      assert run.reports == [item.report] + rest.reports && run.state == rest.state;
      assert run.reports[1..] == rest.reports;
      EachRecordedCons(run.state.meta, item.state.meta, st.meta, ids, run.reports, args);
    }
  }

  /** The settings ajax_optimize_image reads from the request: the text-
      sanitised type or 'lossy', the intval'd quality or 80. */
  function AjaxSettings(compressionType: Option<PhpValue>, quality: Option<PhpValue>,
                        sanitizeText: PhpValue -> string): Settings
  {
    Settings(if compressionType.Some? then sanitizeText(compressionType.value) else "lossy",
             if quality.Some? then IntVal(quality.value) else 80)
  }

  /** ajax_optimize_image once optimize_image has returned `result` and left
      `st`: an Exception escapes, a failure is the error reply, and a
      success writes the meta and the statistics before the thumbnails run,
      whose Exception escapes too. */
  ghost function AjaxAfterRun(env: Environment, st: SiteState, stats: Option<Stats>, id: int, result: Outcome,
                              s: Settings): (AjaxReply, SiteState, Option<Stats>)
    requires ValidCodec(env.codec)
  {
    match result
    case Thrown(m) => (Uncaught(m), st, stats)
    case Failed(m) => (OptimizeError(m), st, stats)
    case Optimized(o, p, saved) =>
      var meta := RecordOptimization(st.meta, id, o, p, saved, AjaxSettingsValue(s.compressionType, s.quality));
      var t := ThumbnailsOptimized(env, st.metadata, st.files, st.clock, id, s);
      (if t.thrown.Some? then Uncaught(t.thrown.value) else OptimizeSuccess(result),
       SiteState(t.files, t.clock, meta, t.metadata), Some(Recorded(stats, o, p)))
  }

  /** The reply once the optimiser has returned `result`: an error exactly
      for a failure, an uncaught Exception for one from the optimiser, and
      the success reply only for a success, which alone records anything. */
  lemma AjaxAfterRunEffect(env: Environment, st: SiteState, stats: Option<Stats>, id: int, result: Outcome, s: Settings)
    requires ValidCodec(env.codec)
    ensures var (reply, after, stats') := AjaxAfterRun(env, st, stats, id, result, s);
      && (reply.OptimizeError? <==> result.Failed?)
      && (result.Failed? ==> reply == OptimizeError(result.message))
      && (result.Thrown? ==> reply == Uncaught(result.message))
      && (!result.Optimized? ==> stats' == stats && after == st)
      && (result.Optimized? ==>
            && stats' == Some(Recorded(stats, result.originalSize, result.optimizedSize))
            && after.meta == RecordOptimization(st.meta, id, result.originalSize, result.optimizedSize,
                                                result.savings, AjaxSettingsValue(s.compressionType, s.quality)))
      && (reply.OptimizeSuccess? ==> reply.result == result && result.Optimized?)
  {
  }

  /** ajax_optimize_image for a request whose fields are None when absent. */
  ghost function AjaxOptimized(env: Environment, st: SiteState, stats: Option<Stats>, attachmentId: Option<PhpValue>,
                               compressionType: Option<PhpValue>, quality: Option<PhpValue>,
                               sanitizeText: PhpValue -> string): (AjaxReply, SiteState, Option<Stats>)
    requires ValidCodec(env.codec)
  {
    if attachmentId.None? then (OptimizeError(NoAttachmentId), st, stats)
    else
      var id := IntVal(attachmentId.value);
      var file := AttachedFile(env.posts, id);
      if file.None? then (OptimizeError(FileNotFound), st, stats)
      else
        var s := AjaxSettings(compressionType, quality, sanitizeText);
        var step := OptimizeAt(st.files, env.readOnly, st.clock, file.value, s, env.codec);
        AjaxAfterRun(env, st.(files := step.files, clock := step.clock), stats, id, step.outcome, s)
  }

  /** The replies of ajax_optimize_image. Without an ID or an attached file
      it answers an error and changes nothing. Otherwise, for the
      optimiser's outcome on the attached file with the request's settings:
      the reply is an error exactly when the outcome is a failure, carrying
      its message, and nothing is recorded; an Exception from the optimiser
      escapes and nothing is recorded; a success records the five meta keys
      and the statistics, and the success reply carries that outcome. */
  lemma AjaxOptimizeReplies(env: Environment, st: SiteState, stats: Option<Stats>, attachmentId: Option<PhpValue>,
                            compressionType: Option<PhpValue>, quality: Option<PhpValue>,
                            sanitizeText: PhpValue -> string)
    requires ValidCodec(env.codec)
    ensures var (reply, after, stats') := AjaxOptimized(env, st, stats, attachmentId, compressionType, quality, sanitizeText);
      && (attachmentId.None? ==> reply == OptimizeError(NoAttachmentId) && after == st && stats' == stats)
      && (attachmentId.Some? && AttachedFile(env.posts, IntVal(attachmentId.value)).None? ==>
            reply == OptimizeError(FileNotFound) && after == st && stats' == stats)
      && (attachmentId.Some? && AttachedFile(env.posts, IntVal(attachmentId.value)).Some? ==>
            var id := IntVal(attachmentId.value);
            var path := AttachedFile(env.posts, id).value;
            var s := AjaxSettings(compressionType, quality, sanitizeText);
            var outcome := Optimize(st.files, env.readOnly, path, s, env.codec, TempPath(path, UniqidAt(st.clock))).outcome;
            && (reply.OptimizeError? <==> outcome.Failed?)
            && (outcome.Failed? ==> reply == OptimizeError(outcome.message))
            && (outcome.Thrown? ==> reply == Uncaught(outcome.message))
            && (!outcome.Optimized? ==> stats' == stats && after.meta == st.meta && after.metadata == st.metadata)
            && (outcome.Optimized? ==>
                  && stats' == Some(Recorded(stats, outcome.originalSize, outcome.optimizedSize))
                  && after.meta == RecordOptimization(st.meta, id, outcome.originalSize, outcome.optimizedSize,
                                                      outcome.savings, AjaxSettingsValue(s.compressionType, s.quality)))
            && (reply.OptimizeSuccess? ==> reply.result == outcome && outcome.Optimized?))
  {
    if attachmentId.Some? && AttachedFile(env.posts, IntVal(attachmentId.value)).Some? {
      var id := IntVal(attachmentId.value);
      var path := AttachedFile(env.posts, id).value;
      var s := AjaxSettings(compressionType, quality, sanitizeText);
      var step := OptimizeAt(st.files, env.readOnly, st.clock, path, s, env.codec);
      assert AjaxOptimized(env, st, stats, attachmentId, compressionType, quality, sanitizeText)
          == AjaxAfterRun(env, st.(files := step.files, clock := step.clock), stats, id, step.outcome, s);
      AjaxAfterRunEffect(env, st.(files := step.files, clock := step.clock), stats, id, step.outcome, s);
    }
  }

  // ---------------------------------------------------------------------
  // The plugin's state and handlers

  /** The AJAX optimise handler's reply: a JSON success carrying the
      optimiser's result, a JSON error, or an uncaught Exception. */
  datatype AjaxReply = OptimizeSuccess(result: Outcome) | OptimizeError(message: string) | Uncaught(message: string)

  const NoAttachmentId: string := "No attachment ID provided"

  /** The state index.php works on: the disk, the posts, the post meta,
      the attachment metadata and the statistics option. */
  class Site {
    const disk: Disk
    const posts: seq<Post>
    const codec: Codec
    /** file_exists(SLIMSNAP_BACKUP_DIR . '/'). */
    const backupDirExists: bool
    /** wp_generate_attachment_metadata for a post, its file and the file
        system; None stands for a falsy result. */
    const regenerate: (int, Path, map<Path, Bytes>) -> Option<AttachmentMetadata>
    var meta: Meta
    var attachmentMetadata: map<int, AttachmentMetadata>
    var statistics: Option<Stats>

    constructor (disk: Disk, posts: seq<Post>, codec: Codec, backupDirExists: bool,
                 regenerate: (int, Path, map<Path, Bytes>) -> Option<AttachmentMetadata>,
                 meta: Meta, attachmentMetadata: map<int, AttachmentMetadata>, statistics: Option<Stats>)
      ensures this.disk == disk && this.posts == posts && this.codec == codec
      ensures this.backupDirExists == backupDirExists && this.regenerate == regenerate
      ensures this.meta == meta && this.attachmentMetadata == attachmentMetadata
      ensures this.statistics == statistics
    {
      this.disk := disk;
      this.posts := posts;
      this.codec := codec;
      this.backupDirExists := backupDirExists;
      this.regenerate := regenerate;
      this.meta := meta;
      this.attachmentMetadata := attachmentMetadata;
      this.statistics := statistics;
    }

    /** update_statistics. */
    method UpdateStatistics(originalSize: int, optimizedSize: int)
      modifies this`statistics
      ensures statistics == Some(Recorded(old(statistics), originalSize, optimizedSize))
    {
      var stats := if statistics.Some? then statistics.value else DefaultStats();
      var totalOptimized := stats.totalOptimized + 1;
      var totalSaved := stats.totalSaved + (originalSize - optimizedSize);
      statistics := Some(Stats(totalOptimized, totalSaved, Fraction(totalSaved, totalOptimized)));
    }

    /** revert_optimization. */
    method RevertOptimization(attachmentId: int) returns (reverted: bool)
      modifies this`meta, disk`files
      ensures RevertState(reverted, disk.files, meta)
           == Reverted(old(disk.files), disk.readOnly, backupDirExists, old(meta), AttachedFile(posts, attachmentId), attachmentId)
    {
      var file := AttachedFile(posts, attachmentId);
      var name := if file.Some? then Basename(file.value) else "";
      var backupPath := BackupDir + "/" + name;
      var slotExists := if name == "" then backupDirExists else backupPath in disk.files;
      if !slotExists {
        return false;
      }
      if name != "" {
        var _ := disk.Copy(backupPath, file.value);
        var _ := disk.Unlink(backupPath);
      }
      meta := WithoutSlimSnapMeta(meta, attachmentId);
      return true;
    }

    /** ajax_revert_optimization for the attachment_id of the request (0
      when absent); the attachment metadata is regenerated on success. */
    method AjaxRevertOptimization(attachmentId: int) returns (response: Response)
      modifies this`meta, this`attachmentMetadata, disk`files
      ensures var file := AttachedFile(posts, attachmentId);
        var r := AjaxReverted(old(disk.files), disk.readOnly, backupDirExists, old(meta), file, attachmentId);
        && response == r.response && disk.files == r.files && meta == r.meta
        && (response.JsonSuccess? ==>
              attachmentMetadata == old(attachmentMetadata)[attachmentId :=
                match regenerate(attachmentId, file.value, disk.files)
                case Some(m) => m case None => AttachmentMetadata(None, None)])
        && (response.JsonError? ==> attachmentMetadata == old(attachmentMetadata))
    {
      if attachmentId == 0 {
        return JsonError(InvalidId);
      }
      var file := AttachedFile(posts, attachmentId);
      var name := if file.Some? then Basename(file.value) else "";
      var backupPath := BackupDir + "/" + name;
      var slotExists := if name == "" then backupDirExists else backupPath in disk.files;
      if !slotExists {
        return JsonError(BackupFileNotFound);
      }
      var copied := false;
      if name != "" {
        copied := disk.Copy(backupPath, file.value);
      }
      if !copied {
        return JsonError(RevertFailed);
      }
      meta := WithoutSlimSnapMeta(meta, attachmentId);
      var regenerated := regenerate(attachmentId, file.value, disk.files);
      attachmentMetadata := attachmentMetadata[attachmentId :=
        match regenerated case Some(m) => m case None => AttachmentMetadata(None, None)];
      return JsonSuccess(RevertSucceeded);
    }

    /** The parts of the site a handler reads and never changes. */
    function Env(): Environment {
      Environment(posts, disk.readOnly, codec, regenerate)
    }

    /** The parts of the site a handler changes, statistics aside. */
    ghost function State(): SiteState
      reads this, disk
    {
      SiteState(disk.files, disk.clock, meta, attachmentMetadata)
    }

    /** optimize_thumbnails: the sizes are optimised in turn and the
      metadata saved once after the loop; an Exception from the optimiser
      leaves the loop, unsaved, and is returned as `thrown`. */
    method OptimizeThumbnails(attachmentId: int, s: Settings) returns (thrown: Option<string>)
      requires ValidCodec(codec)
      modifies this`attachmentMetadata, disk
      ensures ThumbsDone(thrown, attachmentMetadata, disk.files, disk.clock)
           == ThumbnailsOptimized(Env(), old(attachmentMetadata), old(disk.files), old(disk.clock), attachmentId, s)
    {
      if attachmentId !in attachmentMetadata || attachmentMetadata[attachmentId].sizes.None? {
        return None;
      }
      var metadata := attachmentMetadata[attachmentId];
      var file := AttachedFile(posts, attachmentId);
      var baseDir := Dirname(if file.Some? then file.value else "");
      var updated;
      updated, thrown := ThumbnailLoop(metadata.sizes.value, baseDir, s);
      if thrown.None? {
        attachmentMetadata := attachmentMetadata[attachmentId := metadata.(sizes := Some(updated))];
      }
    }

    /** The loop of optimize_thumbnails over the size entries: `updated`
      holds the sizes after the successes so far; an Exception from the
      optimiser leaves the loop at once. */
    method ThumbnailLoop(sizes: seq<SizeEntry>, baseDir: Path, s: Settings)
      returns (updated: seq<SizeEntry>, thrown: Option<string>)
      requires ValidCodec(codec)
      modifies disk
      ensures var pass := ThumbnailPass(old(disk.files), disk.readOnly, old(disk.clock), sizes, baseDir, s, codec);
        && thrown == pass.thrown && disk.files == pass.files && disk.clock == pass.clock
        && (thrown.None? ==> |pass.outcomes| == |sizes| && updated == ApplyThumbnailResults(sizes, pass.outcomes))
    {
      ghost var files0, clock0 := disk.files, disk.clock;
      ghost var outcomes: seq<Option<Outcome>> := [];
      updated := sizes;
      var i := 0;
      while i < |sizes|
        invariant 0 <= i <= |sizes| && |outcomes| == i
        invariant updated == ApplyThumbnailResults(sizes, outcomes)
        invariant ThumbnailPass(files0, disk.readOnly, clock0, sizes, baseDir, s, codec)
               == Preceded(outcomes, ThumbnailPass(disk.files, disk.readOnly, disk.clock, sizes[i..], baseDir, s, codec))
      {
        ghost var files, clock := disk.files, disk.clock;
        var result := ThumbnailStep(baseDir + "/" + sizes[i].file, s);
        assert sizes[i..][0] == sizes[i] && sizes[i..][1..] == sizes[i + 1..];
        ThumbnailPassStep(files, disk.readOnly, clock, sizes[i..], baseDir, s, codec, result, disk.files, disk.clock);
        if result.Some? && result.value.Thrown? {
          assert outcomes + [result] + [] == outcomes + [result];
          return updated, Some(result.value.message);
        }
        ApplyOneMore(sizes, outcomes, result);
        if result.Some? && result.value.Optimized? {
          updated := updated[i := sizes[i].(filesize := Some(result.value.optimizedSize))];
        }
        PrecededTwice(outcomes, [result], ThumbnailPass(disk.files, disk.readOnly, disk.clock, sizes[i + 1..], baseDir, s, codec));
        outcomes := outcomes + [result];
        i := i + 1;
      }
      assert sizes[i..] == [];
      assert outcomes + [] == outcomes;
      thrown := None;
    }

    /** One size entry: skipped (None) when its file does not exist,
      otherwise the optimiser's outcome on it. */
    method ThumbnailStep(thumbPath: Path, s: Settings) returns (result: Option<Outcome>)
      requires ValidCodec(codec)
      modifies disk
      ensures result.None? <==> thumbPath !in old(disk.files)
      ensures result.None? ==> disk.files == old(disk.files) && disk.clock == old(disk.clock)
      ensures result.Some? ==>
        Step(result.value, disk.files, disk.clock) == OptimizeAt(old(disk.files), disk.readOnly, old(disk.clock), thumbPath, s, codec)
    {
      if thumbPath !in disk.files {
        return None;
      }
      var outcome := OptimizeImage(disk, thumbPath, s, codec);
      return Some(outcome);
    }

    /** The main-file metadata step of the batch after a success: when the
      attachment has metadata, its file size becomes the optimized size and
      the regenerated metadata, when truthy, is merged over it. */
    method RefreshMetadata(attachmentId: int, path: Path, optimizedSize: int)
      modifies this`attachmentMetadata
      ensures !HasMetadata(old(attachmentMetadata), attachmentId) ==> attachmentMetadata == old(attachmentMetadata)
      ensures HasMetadata(old(attachmentMetadata), attachmentId) ==>
        attachmentMetadata == old(attachmentMetadata)[attachmentId :=
          MergeMetadata(old(attachmentMetadata)[attachmentId].(filesize := Some(optimizedSize)),
                        regenerate(attachmentId, path, disk.files))]
    {
      if HasMetadata(attachmentMetadata, attachmentId) {
        var metadata := attachmentMetadata[attachmentId].(filesize := Some(optimizedSize));
        var regenerated := regenerate(attachmentId, path, disk.files);
        attachmentMetadata := attachmentMetadata[attachmentId := MergeMetadata(metadata, regenerated)];
      }
    }

    /** One pass of the batch loop: the entries appended for this item
      and what happened to it. `isolate` keeps a thumbnail Exception out of
      the item's entries; bulk_optimize_images as written does not. */
    method ProcessItem(attachmentId: int, args: BatchArgs, isolate: bool)
      returns (entries: (seq<(int, int)>, seq<(int, string)>), ghost report: ItemReport)
      requires ValidCodec(codec)
      modifies this`meta, this`attachmentMetadata, disk
      ensures ItemRun(report, State()) == BulkItem(Env(), old(State()), attachmentId, args)
      ensures entries == if isolate then IsolatedItemEntries(attachmentId, report) else ItemEntries(attachmentId, report)
      ensures SavesBytes([report])
    {
      var file := AttachedFile(posts, attachmentId);
      if file.None? || file.value !in disk.files {
        report := FileMissing;
        return ([], [(attachmentId, FileNotFound)]), report;
      }
      entries, report := ProcessFile(attachmentId, file.value, args, isolate);
    }

    /** ProcessItem once the attached file is known to exist. */
    method ProcessFile(attachmentId: int, path: Path, args: BatchArgs, isolate: bool)
      returns (entries: (seq<(int, int)>, seq<(int, string)>), ghost report: ItemReport)
      requires ValidCodec(codec)
      modifies this`meta, this`attachmentMetadata, disk
      ensures ItemRun(report, State()) == BulkFile(Env(), old(State()), attachmentId, path, args)
      ensures entries == if isolate then IsolatedItemEntries(attachmentId, report) else ItemEntries(attachmentId, report)
      ensures SavesBytes([report])
    {
      var s := Settings(args.compressionType, args.quality);
      ghost var before, clock := disk.files, disk.clock;
      var result := OptimizeImage(disk, path, s, codec);
      OptimizedShrinks(before, disk.readOnly, path, s, codec, UniqidAt(clock));
      ghost var after := old(State()).(files := disk.files, clock := disk.clock);
      assert after == State();
      var thrown: Option<string> := None;
      if result.Optimized? {
        assert BulkFile(Env(), old(State()), attachmentId, path, args) == BulkSuccess(Env(), after, attachmentId, path, result, args);
        thrown := AfterItemSuccess(attachmentId, path, result, args);
      }
      report := Processed(result, thrown);
      entries := AppendEntries(attachmentId, result, thrown, isolate);
    }

    /** The appends to 'success' and 'failed' once the item's outcome and
      its thumbnails' Exception are known. */
    method AppendEntries(attachmentId: int, result: Outcome, thrown: Option<string>, isolate: bool)
      returns (entries: (seq<(int, int)>, seq<(int, string)>))
      requires thrown.Some? ==> result.Optimized?
      ensures entries == if isolate then IsolatedItemEntries(attachmentId, Processed(result, thrown))
                         else ItemEntries(attachmentId, Processed(result, thrown))
    {
      if !result.Optimized? {
        entries := ([], [(attachmentId, result.message)]);
      } else if thrown.Some? && !isolate {
        entries := ([(attachmentId, result.originalSize - result.optimizedSize)], [(attachmentId, thrown.value)]);
      } else {
        entries := ([(attachmentId, result.originalSize - result.optimizedSize)], []);
      }
    }

    /** What the batch does after a successful main image: the meta is
      written, the metadata refreshed and the thumbnails optimised;
      `thrown` is the thumbnails' Exception, if any. */
    method AfterItemSuccess(attachmentId: int, path: Path, result: Outcome, args: BatchArgs)
      returns (thrown: Option<string>)
      requires ValidCodec(codec) && result.Optimized?
      modifies this`meta, this`attachmentMetadata, disk
      ensures ItemRun(Processed(result, thrown), State()) == BulkSuccess(Env(), old(State()), attachmentId, path, result, args)
    {
      meta := RecordOptimization(meta, attachmentId, result.originalSize, result.optimizedSize, result.savings,
                                 BulkSettingsValue(args.quality, args.compressionType));
      RefreshMetadata(attachmentId, path, result.optimizedSize);
      thrown := OptimizeThumbnails(attachmentId, Settings(args.compressionType, args.quality));
    }

    /** The loop of bulk_optimize_images over the selected IDs: each ID is
      handled on the state the earlier ones left, and none aborts the loop. */
    method RunBatch(images: seq<int>, args: BatchArgs, isolate: bool)
      returns (results: BatchResults, ghost reports: seq<ItemReport>)
      requires ValidCodec(codec)
      modifies this`meta, this`attachmentMetadata, disk
      ensures BatchRun(reports, State()) == BulkItems(Env(), old(State()), images, args)
      ensures |reports| == |images| && SavesBytes(reports)
      ensures results == Summarize(images, reports, isolate)
    {
      ghost var start := State();
      results := BatchResults([], [], 0);
      reports := [];
      var i := 0;
      while i < |images|
        invariant 0 <= i <= |images| && |reports| == i && SavesBytes(reports)
        invariant results == Summarize(images[..i], reports, isolate)
        invariant BulkItems(Env(), start, images, args) == Followed(reports, BulkItems(Env(), State(), images[i..], args))
      {
        ghost var here := BulkItems(Env(), State(), images[i..], args);
        assert images[i..][0] == images[i] && images[i..][1..] == images[i + 1..];
        var entries, report := ProcessItem(images[i], args, isolate);
        ghost var next := BulkItems(Env(), State(), images[i + 1..], args);
        assert here == Followed([report], next);
        assert reports + ([report] + next.reports) == (reports + [report]) + next.reports;
        SummarizeStep(images, reports, report, i, isolate);
        results := BatchResults(results.success + entries.0, results.failed + entries.1,
                                results.totalSaved + Savings(entries.0));
        reports := reports + [report];
        i := i + 1;
      }
      assert images[..i] == images;
      assert images[i..] == [];
      assert reports + [] == reports;
    }

    /** bulk_optimize_images as written: the selected IDs, each handled in
      turn, with no item aborting the batch. */
    method BulkOptimizeImages(args: BatchArgs, matches: (PhpValue, int, string) -> bool)
      returns (results: BatchResults, images: seq<int>, ghost reports: seq<ItemReport>)
      requires ValidCodec(codec)
      modifies this`meta, this`attachmentMetadata, disk
      ensures images == SelectBatch(posts, old(meta), matches, args.quality, args.compressionType, args.offset, args.limit)
      ensures BatchRun(reports, State()) == BulkItems(Env(), old(State()), images, args)
      ensures |reports| == |images| && SavesBytes(reports)
      ensures results == Summarize(images, reports, false)
    {
      images := SelectBatch(posts, meta, matches, args.quality, args.compressionType, args.offset, args.limit);
      results, reports := RunBatch(images, args, false);
    }

    /** The batch with thumbnail failures kept apart from the items'
      results, so that each selected ID is listed exactly once. */
    method BulkOptimizeImagesIsolated(args: BatchArgs, matches: (PhpValue, int, string) -> bool)
      returns (results: BatchResults, images: seq<int>, ghost reports: seq<ItemReport>)
      requires ValidCodec(codec)
      modifies this`meta, this`attachmentMetadata, disk
      ensures images == SelectBatch(posts, old(meta), matches, args.quality, args.compressionType, args.offset, args.limit)
      ensures BatchRun(reports, State()) == BulkItems(Env(), old(State()), images, args)
      ensures |reports| == |images| && SavesBytes(reports)
      ensures results == Summarize(images, reports, true)
      ensures multiset(SuccessIds(results.success)) + multiset(FailedIds(results.failed)) == multiset(images)
    {
      images := SelectBatch(posts, meta, matches, args.quality, args.compressionType, args.offset, args.limit);
      results, reports := RunBatch(images, args, true);
      IsolatedItemListedOnce(images, reports);
    }

    /** ajax_optimize_image for the request's attachment_id, compression
      type and quality (None when absent); sanitizeText is
      sanitize_text_field. */
    method AjaxOptimizeImage(attachmentId: Option<PhpValue>, compressionType: Option<PhpValue>,
                             quality: Option<PhpValue>, sanitizeText: PhpValue -> string)
      returns (reply: AjaxReply)
      requires ValidCodec(codec)
      modifies this`meta, this`attachmentMetadata, this`statistics, disk
      ensures (reply, State(), statistics)
           == AjaxOptimized(Env(), old(State()), old(statistics), attachmentId, compressionType, quality, sanitizeText)
    {
      if attachmentId.None? {
        return OptimizeError(NoAttachmentId);
      }
      var id := IntVal(attachmentId.value);
      var file := AttachedFile(posts, id);
      if file.None? {
        return OptimizeError(FileNotFound);
      }
      var ct := if compressionType.Some? then sanitizeText(compressionType.value) else "lossy";
      var q := if quality.Some? then IntVal(quality.value) else 80;
      var s := Settings(ct, q);
      assert s == AjaxSettings(compressionType, quality, sanitizeText);
      var result := OptimizeImage(disk, file.value, s, codec);
      assert State() == old(State()).(files := disk.files, clock := disk.clock);
      reply := AjaxReplyFor(id, result, s);
    }

    /** The reply of ajax_optimize_image once the optimiser has returned
      `result`: an Exception escapes, a failure is a JSON error, and a
      success is recorded before the thumbnails are optimised. */
    method AjaxReplyFor(id: int, result: Outcome, s: Settings) returns (reply: AjaxReply)
      requires ValidCodec(codec)
      modifies this`meta, this`attachmentMetadata, this`statistics, disk
      ensures (reply, State(), statistics) == AjaxAfterRun(Env(), old(State()), old(statistics), id, result, s)
    {
      if result.Thrown? {
        return Uncaught(result.message);
      }
      if result.Failed? {
        return OptimizeError(result.message);
      }
      RecordSuccess(id, result, AjaxSettingsValue(s.compressionType, s.quality));
      var thrown := OptimizeThumbnails(id, s);
      if thrown.Some? {
        return Uncaught(thrown.value);
      }
      return OptimizeSuccess(result);
    }

    /** The five meta keys and the statistics after a successful
      optimisation. */
    method RecordSuccess(id: int, result: Outcome, settingsValue: PhpValue)
      requires result.Optimized?
      modifies this`meta, this`statistics
      ensures meta == RecordOptimization(old(meta), id, result.originalSize, result.optimizedSize, result.savings,
                                         settingsValue)
      ensures statistics == Some(Recorded(old(statistics), result.originalSize, result.optimizedSize))
    {
      meta := RecordOptimization(meta, id, result.originalSize, result.optimizedSize, result.savings, settingsValue);
      UpdateStatistics(result.originalSize, result.optimizedSize);
    }

    /** cleanup_temp_files: removes the named temp and preview files, then
      every globbed file older than an hour by `mtime`, the clock reading
      being `now`. */
    method CleanupTempFiles(tempFile: Option<Path>, previewFile: Option<Path>, now: int, mtime: Path -> int)
      modifies disk`files
      ensures disk.files == CleanedUp(old(disk.files), tempFile, previewFile, now, mtime)
    {
      ghost var files0 := disk.files;
      UnlinkIfNamed(disk, tempFile);
      UnlinkIfNamed(disk, previewFile);
      ghost var afterNamed := disk.files;
      var globbed := set p | p in disk.files && IsSlimSnapFile(p);
      var pending := globbed;
      while pending != {}
        invariant pending <= globbed
        invariant forall p :: p in disk.files <==>
          p in afterNamed && !(p in globbed && p !in pending && mtime(p) < now - 3600)
        invariant forall p :: p in disk.files ==> disk.files[p] == afterNamed[p]
        decreases |pending|
      {
        var f :| f in pending;
        if mtime(f) < now - 3600 {
          var _ := disk.Unlink(f);
        }
        pending := pending - {f};
      }
      CleanupComplete(files0, afterNamed, disk.files, tempFile, previewFile, now, mtime);
    }
  }

  /** `if ($file && file_exists($file)) unlink($file);` */
  method UnlinkIfNamed(disk: Disk, file: Option<Path>)
    modifies disk`files
    ensures Named(old(disk.files), file) ==> disk.files == old(disk.files) - {file.value}
    ensures !Named(old(disk.files), file) ==> disk.files == old(disk.files)
  {
    if file.Some? && !Empty(PStr(file.value)) && file.value in disk.files {
      var _ := disk.Unlink(file.value);
    }
  }

  /** The state the clean-up loop ends in is CleanedUp. */
  lemma CleanupComplete(files0: map<Path, Bytes>, afterNamed: map<Path, Bytes>, final: map<Path, Bytes>,
                        tempFile: Option<Path>, previewFile: Option<Path>, now: int, mtime: Path -> int)
    requires afterNamed == (var t := if Named(files0, tempFile) then files0 - {tempFile.value} else files0;
                            if Named(t, previewFile) then t - {previewFile.value} else t)
    requires forall p :: p in final <==>
      p in afterNamed && !(p in afterNamed && IsSlimSnapFile(p) && mtime(p) < now - 3600)
    requires forall p :: p in final ==> final[p] == afterNamed[p]
    ensures final == CleanedUp(files0, tempFile, previewFile, now, mtime)
  {
    var r := CleanedUp(files0, tempFile, previewFile, now, mtime);
    forall p
      ensures p in final <==> p in r
    {
    }
  }

  /** wp_get_attachment_metadata($id) is truthy: stored and not an empty
      array. */
  predicate HasMetadata(attachmentMetadata: map<int, AttachmentMetadata>, id: int) {
    id in attachmentMetadata && attachmentMetadata[id] != AttachmentMetadata(None, None)
  }

  /** array_merge($metadata, $new_metadata): the regenerated entries, when
      truthy, override the old ones. */
  function MergeMetadata(current: AttachmentMetadata, regenerated: Option<AttachmentMetadata>): AttachmentMetadata {
    match regenerated
    case None => current
    case Some(m) => AttachmentMetadata(if m.filesize.Some? then m.filesize else current.filesize,
                                       if m.sizes.Some? then m.sizes else current.sizes)
  }
}
