/** The filesystem the plugin works on: a map from path to file bytes,
    the backup slot naming rule, and the file primitives (copy, unlink,
    rename, write) with PHP's success rules. */
module Storage {
  import opened Php

  type Path = string
  type Bytes = seq<bv8>

  /** SLIMSNAP_BACKUP_DIR, i.e. WP_CONTENT_DIR . '/slimsnap-backups'; the
      content directory is fixed here because it is installation-specific. */
  const BackupDir: Path := "wp-content/slimsnap-backups"

  /** wp_upload_dir()['basedir']. */
  const UploadsDir: Path := "wp-content/uploads"

  predicate NoSlash(s: string) {
    forall i :: 0 <= i < |s| ==> s[i] != '/'
  }

  /** PHP's basename(): the part after the last '/'. */
  function Basename(p: Path): (b: string)
    ensures NoSlash(b) && |b| <= |p|
  {
    if p == [] || p[|p| - 1] == '/' then [] else Basename(p[..|p| - 1]) + [p[|p| - 1]]
  }

  /** PHP's dirname() of a file path: the part before the last '/', "/"
      when that is the root, "." when there is no '/', and "" for "".
      Repeated slashes before the last name are kept ("a//b" gives "a/"),
      where PHP strips them. */
  function Dirname(p: Path): Path {
    if p == [] then [] else DirPart(p)
  }

  function DirPart(p: Path): Path {
    if p == [] then "."
    else if p[|p| - 1] == '/' then (if |p| == 1 then "/" else p[..|p| - 1])
    else DirPart(p[..|p| - 1])
  }

  /** A file named inside a directory has that directory as its dirname. */
  lemma {:induction false} DirnameOfJoin(dir: Path, name: string)
    requires dir != [] && NoSlash(name)
    ensures Dirname(dir + "/" + name) == dir
  {
    if name == [] {
      assert dir + "/" + name == dir + "/";
      assert (dir + "/")[..|dir + "/"| - 1] == dir;
    } else {
      var init := name[..|name| - 1];
      assert (dir + "/" + name)[..|dir + "/" + name| - 1] == dir + "/" + init;
      DirnameOfJoin(dir, init);
    }
  }

  /** The backup slot of a file: SLIMSNAP_BACKUP_DIR . '/' . basename($path). */
  function BackupPath(p: Path): Path {
    BackupDir + "/" + Basename(p)
  }

  /** PHP's copy($src, $dst) succeeds when the source exists and the
      destination can be written. */
  predicate CanCopy(files: map<Path, Bytes>, readOnly: set<Path>, src: Path, dst: Path) {
    src in files && dst !in readOnly
  }

  /** The file map after copy($src, $dst). */
  function AfterCopy(files: map<Path, Bytes>, readOnly: set<Path>, src: Path, dst: Path): (r: map<Path, Bytes>)
    ensures CanCopy(files, readOnly, src, dst) ==> dst in r && r[dst] == files[src]
    ensures forall q :: q != dst ==> (q in r <==> q in files) && (q in r ==> r[q] == files[q])
    ensures !CanCopy(files, readOnly, src, dst) ==> r == files
  {
    if CanCopy(files, readOnly, src, dst) then files[dst := files[src]] else files
  }

  /** Appending a suffix without '/' to a path appends it to the basename. */
  lemma {:induction false} BasenameAppend(p: Path, suffix: string)
    requires NoSlash(suffix)
    ensures Basename(p + suffix) == Basename(p) + suffix
  {
    if suffix != [] {
      var init := suffix[..|suffix| - 1];
      assert (p + suffix)[..|p + suffix| - 1] == p + init;
      BasenameAppend(p, init);
      assert init + [suffix[|suffix| - 1]] == suffix;
    } else {
      assert p + suffix == p;
    }
  }

  /** The backup slot of a file is named by the file's basename. */
  lemma BackupSlotName(p: Path)
    ensures Basename(BackupPath(p)) == Basename(p)
  {
    BasenameAppend(BackupDir + "/", Basename(p));
  }

  /** Two files share one backup slot exactly when their basenames agree,
      whatever directories they live in. */
  lemma SharedBackupSlot(p: Path, q: Path)
    ensures BackupPath(p) == BackupPath(q) <==> Basename(p) == Basename(q)
  {
    BackupSlotName(p);
    BackupSlotName(q);
  }

  /** A file system whose contents the plugin changes in place. The clock
      stands for the microsecond time that uniqid() reads; readOnly are the
      paths a copy cannot write. */
  class Disk {
    var files: map<Path, Bytes>
    var clock: nat
    const readOnly: set<Path>

    constructor (files: map<Path, Bytes>, readOnly: set<Path>)
      ensures this.files == files && this.readOnly == readOnly && clock == 0
    {
      this.files := files;
      this.readOnly := readOnly;
      clock := 0;
    }

    /** copy($src, $dst). */
    method Copy(src: Path, dst: Path) returns (ok: bool)
      modifies this`files
      ensures ok == CanCopy(old(files), readOnly, src, dst)
      ensures files == AfterCopy(old(files), readOnly, src, dst)
    {
      ok := CanCopy(files, readOnly, src, dst);
      if ok {
        files := files[dst := files[src]];
      }
    }

    /** unlink($p): fails when there is no such file. */
    method Unlink(p: Path) returns (ok: bool)
      modifies this`files
      ensures ok == (p in old(files))
      ensures files == old(files) - {p}
    {
      ok := p in files;
      files := files - {p};
    }

    /** rename($src, $dst): moves the bytes and removes the source name. */
    method Rename(src: Path, dst: Path) returns (ok: bool)
      modifies this`files
      ensures ok == (src in old(files))
      ensures ok && src != dst ==> files == old(files)[dst := old(files)[src]] - {src}
      ensures !ok || src == dst ==> files == old(files)
    {
      ok := src in files;
      if ok && src != dst {
        files := files[dst := files[src]] - {src};
      }
    }

    /** An encoder writing its output to p. */
    method Write(p: Path, content: Bytes)
      modifies this`files
      ensures files == old(files)[p := content]
    {
      files := files[p := content];
    }

    /** uniqid('', true): a fresh token read from the advancing clock. */
    method Uniqid() returns (token: string)
      modifies this`clock
      ensures token == UniqidAt(old(clock)) && clock == old(clock) + 1
    {
      token := UniqidAt(clock);
      clock := clock + 1;
    }
  }

  /** The token uniqid() returns at a clock reading; only its uniqueness
      and the absence of '/' matter to the plugin. */
  function UniqidAt(t: nat): (token: string)
    ensures NoSlash(token) && |token| >= 1
  {
    var s := NatToDecimal(t);
    assert forall i :: 0 <= i < |s| ==> IsDigit(s[i]);
    s
  }

  /** Tokens at different clock readings differ. */
  lemma UniqidInjective(t1: nat, t2: nat)
    requires t1 != t2
    ensures UniqidAt(t1) != UniqidAt(t2)
  {
    DigitsValueOfDecimal(t1);
    DigitsValueOfDecimal(t2);
  }
}
