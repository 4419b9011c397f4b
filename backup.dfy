/** SlimSnap_Backup: copying an image into its backup slot and copying it
    back. Unlike the optimiser's own backup step, backup_image overwrites
    the slot every time, and restore_image leaves the backup in place. */
module Backup {
  import opened Php
  import opened Storage
  import opened Catalog
  import opened Optimizer

  /** restore_image's result array. */
  datatype RestoreResult = RestoreResult(success: bool, message: string)

  const AttachmentNotFound: string := "Attachment not found"
  const BackupNotFound: string := "Backup not found"
  const Restored: string := "Image restored successfully"
  const RestoreFailed: string := "Failed to restore image"

  /** backup_image: the copy result and the file system after it. */
  function BackedUp(files: map<Path, Bytes>, readOnly: set<Path>, filePath: Path): (bool, map<Path, Bytes>) {
    if filePath !in files then (false, files)
    else (CanCopy(files, readOnly, filePath, BackupPath(filePath)),
          AfterCopy(files, readOnly, filePath, BackupPath(filePath)))
  }

  /** restore_image for the attached file `file` (None when the attachment
      has none): the result and the file system after it. */
  function RestoredFrom(files: map<Path, Bytes>, readOnly: set<Path>, file: Option<Path>): (RestoreResult, map<Path, Bytes>) {
    match file
    case None => (RestoreResult(false, AttachmentNotFound), files)
    case Some(path) =>
      if BackupPath(path) !in files then (RestoreResult(false, BackupNotFound), files)
      else if CanCopy(files, readOnly, BackupPath(path), path) then
        (RestoreResult(true, Restored), AfterCopy(files, readOnly, BackupPath(path), path))
      else (RestoreResult(false, RestoreFailed), files)
  }

  /** backup_image fails without writing when the file is missing; it
      succeeds exactly when the file exists and its slot can be written,
      and then the slot holds the file's current bytes, whatever it held
      before; nothing else changes. */
  lemma BackupImageOverwrites(files: map<Path, Bytes>, readOnly: set<Path>, filePath: Path)
    ensures var (ok, after) := BackedUp(files, readOnly, filePath);
      && (ok <==> filePath in files && BackupPath(filePath) !in readOnly)
      && (ok ==> BackupPath(filePath) in after && after[BackupPath(filePath)] == files[filePath])
      && (!ok ==> after == files)
      && forall q :: q != BackupPath(filePath) ==> (q in after <==> q in files) && (q in after ==> after[q] == files[q])
  {
  }

  /** Where the two backup rules part: with a slot already holding other
      bytes, the optimiser keeps the older backup while backup_image
      replaces it with the current file. */
  lemma BackupRulesDiffer(files: map<Path, Bytes>, readOnly: set<Path>, filePath: Path)
    requires filePath in files && BackupPath(filePath) in files && BackupPath(filePath) !in readOnly
    requires files[BackupPath(filePath)] != files[filePath]
    ensures WithBackup(files, readOnly, filePath)[BackupPath(filePath)] == files[BackupPath(filePath)]
    ensures BackedUp(files, readOnly, filePath).1[BackupPath(filePath)] == files[filePath]
    ensures WithBackup(files, readOnly, filePath) != BackedUp(files, readOnly, filePath).1
  {
    BackupImageOverwrites(files, readOnly, filePath);
  }

  /** The outcomes of restore_image: each message belongs to exactly one
      situation; a successful restore gives the file the backup's bytes and
      keeps the backup; every failure leaves the file system as it was. */
  lemma RestoreOutcomes(files: map<Path, Bytes>, readOnly: set<Path>, file: Option<Path>)
    ensures var (result, after) := RestoredFrom(files, readOnly, file);
      && (result.message == AttachmentNotFound <==> file.None?)
      && (result.message == BackupNotFound <==> file.Some? && BackupPath(file.value) !in files)
      && (result.success <==> file.Some? && BackupPath(file.value) in files && file.value !in readOnly)
      && (result.success <==> result.message == Restored)
      && (result.success ==> after[file.value] == files[BackupPath(file.value)]
                             && BackupPath(file.value) in after
                             && after[BackupPath(file.value)] == files[BackupPath(file.value)])
      && (!result.success ==> after == files)
  {
  }

  /** Because the backup is kept, a restore can be repeated: a second one
      succeeds again and changes nothing more. */
  lemma RestoreRepeatable(files: map<Path, Bytes>, readOnly: set<Path>, path: Path)
    requires RestoredFrom(files, readOnly, Some(path)).0.success
    ensures var after := RestoredFrom(files, readOnly, Some(path)).1;
      RestoredFrom(after, readOnly, Some(path)) == RestoredFrom(files, readOnly, Some(path))
  {
    var after := RestoredFrom(files, readOnly, Some(path)).1;
    var b := BackupPath(path);
    assert after == files[path := files[b]];
    assert b in after && after[b] == files[b];
    assert after[path := after[b]] == after;
    assert RestoredFrom(after, readOnly, Some(path)).1 == after;
  }

  /** backup_image followed by restore_image brings the file's bytes back
      to what they were at the backup, whatever was written in between. */
  lemma BackupThenRestore(files: map<Path, Bytes>, readOnly: set<Path>, path: Path, between: Bytes)
    requires path in files && BackupPath(path) != path
    requires BackupPath(path) !in readOnly && path !in readOnly
    ensures var backedUp := BackedUp(files, readOnly, path).1;
      var (result, after) := RestoredFrom(backedUp[path := between], readOnly, Some(path));
      result.success && after[path] == files[path]
  {
    BackupImageOverwrites(files, readOnly, path);
  }

  /** backup_image on the disk. The backup directory is created by the
      source when missing; directories are not part of this model. */
  method BackupImage(disk: Disk, filePath: Path) returns (ok: bool)
    modifies disk`files
    ensures (ok, disk.files) == BackedUp(old(disk.files), disk.readOnly, filePath)
  {
    if filePath !in disk.files {
      return false;
    }
    var backupPath := BackupDir + "/" + Basename(filePath);
    ok := disk.Copy(filePath, backupPath);
  }

  /** restore_image on the disk, for the attachment's file as
      get_attached_file reports it. */
  method RestoreImage(disk: Disk, posts: seq<Post>, attachmentId: int) returns (result: RestoreResult)
    modifies disk`files
    ensures (result, disk.files) == RestoredFrom(old(disk.files), disk.readOnly, AttachedFile(posts, attachmentId))
  {
    var file := AttachedFile(posts, attachmentId);
    if file.None? {
      return RestoreResult(false, AttachmentNotFound);
    }
    var backupPath := BackupDir + "/" + Basename(file.value);
    if backupPath !in disk.files {
      return RestoreResult(false, BackupNotFound);
    }
    var copied := disk.Copy(backupPath, file.value);
    if copied {
      return RestoreResult(true, Restored);
    }
    return RestoreResult(false, RestoreFailed);
  }
}
