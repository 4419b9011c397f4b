/** SlimSnap_Optimizer::optimize_image: one image file is backed up (once
    per basename), decoded, scaled down to at most 1140 pixels wide,
    re-encoded with the quality-derived parameters into a temporary file,
    and the result replaces the original only when it is under 95 % of
    the original size.

    GD is abstracted as a Codec: decoding, resampling and encoding are
    functions the model does not look inside; the file system is a Disk. */
module Optimizer {
  import opened Php
  import opened Storage
  import opened Policy
  import opened Transparency

  /** A decoded GD image: pixels[x][y] is what imagecolorat returns for
      column x, row y: the packed 0xAARRGGBB colour of a truecolor image,
      the palette index otherwise. */
  datatype Raster = Raster(width: int, height: int, pixels: seq<seq<bv32>>)

  predicate WellFormed(r: Raster) {
    r.width >= 1 && r.height >= 1 && |r.pixels| == r.width &&
    forall x :: 0 <= x < |r.pixels| ==> |r.pixels[x]| == r.height
  }

  /** GD images are at least one pixel in each direction. */
  type Image = r: Raster | WellFormed(r) witness Raster(1, 1, [[0]])

  /** The GD operations optimize_image calls, as functions of their inputs. */
  datatype Codec = Codec(
    fileType: Path -> string,                          // wp_check_filetype($path)['type']
    decode: (string, Bytes) -> Option<Image>,          // imagecreatefromjpeg/png/gif
    resample: (Image, int, int, bool) -> Option<Image>,// imagecopyresampled onto a new canvas; true keeps alpha (PNG)
    encode: (EncodeParams, Image) -> Option<Bytes>,    // imagejpeg/imagepng/imagegif into the temporary file
    gdIsResource: bool)                                // whether is_resource() holds of a GD image

  /** No image can be decoded from an empty file. */
  ghost predicate ValidCodec(c: Codec) {
    forall mime: string :: c.decode(mime, []).None?
  }

  const FileNotFound: string := "File not found"
  const NoResource: string := "Failed to create image resource"
  const CanvasFailed: string := "Failed to create resized image"
  const ResampleFailed: string := "Failed to resize image"
  const SaveFailed: string := "Failed to save optimized image"

  /** What optimize_image produces: its result array with 'success' true,
      its result array with 'success' false, or an Exception it throws.
      savings is savings_percent in hundredths of a percent. */
  datatype Outcome =
    | Optimized(originalSize: int, optimizedSize: int, savings: int)
    | Failed(message: string)
    | Thrown(message: string)

  /** The outcome together with the file system it leaves. */
  datatype Run = Run(outcome: Outcome, files: map<Path, Bytes>)

  /** $file_path . '.' . uniqid('', true) . '.tmp' */
  function TempPath(path: Path, token: string): Path {
    path + "." + token + ".tmp"
  }

  /** The file system after the backup step: the file is copied to its
      backup slot only when that slot is empty. */
  function WithBackup(files: map<Path, Bytes>, readOnly: set<Path>, path: Path): map<Path, Bytes> {
    if BackupPath(path) in files then files else AfterCopy(files, readOnly, path, BackupPath(path))
  }

  /** The image resource for a supported MIME type, None for any other. */
  function Decoded(codec: Codec, mime: string, bytes: Bytes): Option<Image> {
    if mime == Jpeg || mime == Png || mime == Gif then codec.decode(mime, bytes) else None
  }

  /** The image that is encoded: the decoded one, or for one wider than
      MaxWidth a resampled copy at TargetSize; ResizeError carries the message of
      the Exception thrown when the canvas or the resampling fails. */
  datatype Resize = Kept(image: Image) | Scaled(image: Image) | ResizeError(message: string)

  function Resized(codec: Codec, mime: string, img: Image): Resize {
    if img.width > MaxWidth then
      var h := ScaledHeight(img.width, img.height);
      if h < 1 then ResizeError(CanvasFailed)
      else match codec.resample(img, MaxWidth, h, mime == Png)
        case None => ResizeError(ResampleFailed)
        case Some(r) => Scaled(r)
    else Kept(img)
  }

  /** Some pixel of the image has non-zero alpha bits. */
  ghost predicate Transparent(img: Image) {
    exists x, y :: 0 <= x < img.width && 0 <= y < img.height && AlphaBits(img.pixels[x][y]) != 0
  }

  /** What has_transparency reports of an image, given whether GD images
      pass its is_resource() guard. */
  ghost predicate ReportsTransparency(codec: Codec, img: Image) {
    codec.gdIsResource && Transparent(img)
  }

  /** What optimize_image hands to the encoder: the parameters and the
      image, or None when it stops before (a missing file, no image
      resource, or a resize Exception). */
  ghost function EncoderCall(files: map<Path, Bytes>, path: Path, s: Settings, codec: Codec): Option<(EncodeParams, Image)> {
    if path !in files then None
    else
      var mime := codec.fileType(path);
      match Decoded(codec, mime, files[path])
      case None => None
      case Some(decoded) =>
        match Resized(codec, mime, decoded)
        case ResizeError(_) => None
        case _ =>
          var img := Resized(codec, mime, decoded).image;
          Some((PlanFor(mime, s, IsLossy(s) && mime == Png && ReportsTransparency(codec, img)), img))
  }

  /** The whole of optimize_image as a function of the file system before
      it, the settings, the codec and the temporary path it would use. */
  ghost function Optimize(files: map<Path, Bytes>, readOnly: set<Path>, path: Path, s: Settings,
                    codec: Codec, temp: Path): Run
    requires ValidCodec(codec)
  {
    if path !in files then Run(Failed(FileNotFound), files)
    else
      var staged := WithBackup(files, readOnly, path);
      var original := files[path];
      var mime := codec.fileType(path);
      assert Decoded(codec, mime, []).None?;
      match Decoded(codec, mime, original)
      case None => Run(Failed(NoResource), staged)
      case Some(decoded) =>
        match Resized(codec, mime, decoded)
        case ResizeError(msg) => Run(Thrown(msg), staged)
        case _ =>
          var img := Resized(codec, mime, decoded).image;
          var plan := PlanFor(mime, s, IsLossy(s) && mime == Png && ReportsTransparency(codec, img));
          Finish(staged, path, temp, |original|, codec.encode(plan, img))
  }

  /** One optimize_image call on a file system whose uniqid() clock reads
      `clock`: the outcome, the file system after it, and the clock, which
      has advanced exactly when the encoder was reached. */
  datatype Step = Step(outcome: Outcome, files: map<Path, Bytes>, clock: nat)

  ghost function OptimizeAt(files: map<Path, Bytes>, readOnly: set<Path>, clock: nat, path: Path, s: Settings,
                            codec: Codec): Step
    requires ValidCodec(codec)
  {
    var run := Optimize(files, readOnly, path, s, codec, TempPath(path, UniqidAt(clock)));
    Step(run.outcome, run.files, if EncoderCall(files, path, s, codec).Some? then clock + 1 else clock)
  }

  /** The last step of optimize_image, once the encoder has run: an encoder
      failure removes the temporary file and throws; otherwise the temporary
      file replaces the original when Accepts holds of the two sizes and is
      deleted when it does not, and the sizes and savings are reported. */
  ghost function Finish(staged: map<Path, Bytes>, path: Path, temp: Path, originalSize: int,
                        encoded: Option<Bytes>): Run
    requires originalSize > 0
  {
    match encoded
    case None => Run(Thrown(SaveFailed), staged - {temp})
    case Some(out) =>
      if Accepts(originalSize, |out|) then
        Run(Optimized(originalSize, |out|, SavingsPercent(originalSize, |out|)), (staged - {temp})[path := out])
      else
        Run(Optimized(originalSize, originalSize, SavingsPercent(originalSize, originalSize)), staged - {temp})
  }

  /** The temporary file is never the file itself nor the file's own
      backup slot, and its basename extends the file's. */
  lemma TempIsFresh(path: Path, token: string)
    requires NoSlash(token)
    ensures TempPath(path, token) != path
    ensures TempPath(path, token) != BackupPath(path)
    ensures Basename(TempPath(path, token)) == Basename(path) + "." + token + ".tmp"
  {
    var suffix := "." + token + ".tmp";
    assert NoSlash(suffix);
    assert TempPath(path, token) == path + suffix;
    BasenameAppend(path, suffix);
    BackupSlotName(path);
    assert |Basename(path) + suffix| > |Basename(path)|;
  }

  /** A wide image keeps its size only up to MaxWidth; creating the canvas
      fails exactly when the image is more than 2 * MaxWidth times as wide
      as it is tall (the scaled height rounds to 0); otherwise the resampler
      is asked for the target size. */
  lemma ResizeOutcome(codec: Codec, mime: string, img: Image)
    ensures Resized(codec, mime, img).Kept? <==> img.width <= MaxWidth
    ensures Resized(codec, mime, img).Kept? ==> Resized(codec, mime, img).image == img
    ensures Resized(codec, mime, img) == ResizeError(CanvasFailed) <==> img.width > 2 * MaxWidth * img.height
    ensures Resized(codec, mime, img).Scaled? ==>
      codec.resample(img, TargetSize(img.width, img.height).0, TargetSize(img.width, img.height).1, mime == Png)
        == Some(Resized(codec, mime, img).image)
  {
    if img.width > MaxWidth {
      ScaledHeightZero(img.width, img.height);
      ResizeRule(img.width, img.height);
    } else {
      assert img.width <= 2 * MaxWidth * img.height;
    }
  }

  /** The failure paths. A missing file is reported before anything is
      written; an unsupported type or an undecodable file is reported as a
      failure, and canvas, resampling and encoder failures are thrown; on
      every one of them the file's own bytes are left as they were. */
  lemma FailuresKeepOriginal(files: map<Path, Bytes>, readOnly: set<Path>, path: Path, s: Settings,
                             codec: Codec, token: string)
    requires ValidCodec(codec) && NoSlash(token)
    ensures var run := Optimize(files, readOnly, path, s, codec, TempPath(path, token));
      && (path !in files ==> run == Run(Failed(FileNotFound), files))
      && (run.outcome.Failed? ==> run.outcome.message == FileNotFound || run.outcome.message == NoResource)
      && (run.outcome.Failed? && path in files ==>
            run.outcome.message == NoResource &&
            Decoded(codec, codec.fileType(path), files[path]).None?)
      && (path in files && Decoded(codec, codec.fileType(path), files[path]).None? ==>
            run.outcome == Failed(NoResource))
      && (run.outcome.Thrown? ==>
            run.outcome.message == CanvasFailed || run.outcome.message == ResampleFailed ||
            run.outcome.message == SaveFailed)
      && (path in files && !run.outcome.Optimized? ==> path in run.files && run.files[path] == files[path])
  {
    TempIsFresh(path, token);
  }

  /** A backup is written only into an empty slot: a backup that exists is
      never touched, and a new one holds the bytes the file had before this
      run (unless the slot cannot be written). This holds for every file
      outside the backup directory itself. */
  lemma BackupWrittenOnce(files: map<Path, Bytes>, readOnly: set<Path>, path: Path, s: Settings,
                          codec: Codec, token: string)
    requires ValidCodec(codec) && NoSlash(token) && path != BackupPath(path)
    ensures var run := Optimize(files, readOnly, path, s, codec, TempPath(path, token));
      var b := BackupPath(path);
      && (b in files ==> b in run.files && run.files[b] == files[b])
      && (b !in files && path in files ==>
            (b in run.files <==> b !in readOnly) && (b in run.files ==> run.files[b] == files[path]))
      && (b !in files && path !in files ==> b !in run.files)
  {
    TempIsFresh(path, token);
  }

  /** Optimising the same file a second time leaves the backup of the
      first run in place: the backup still holds the original bytes. */
  lemma SecondRunKeepsFirstBackup(files: map<Path, Bytes>, readOnly: set<Path>, path: Path,
                                  s1: Settings, s2: Settings, codec: Codec, token1: string, token2: string)
    requires ValidCodec(codec) && NoSlash(token1) && NoSlash(token2) && path != BackupPath(path)
    requires path in files && BackupPath(path) !in files && BackupPath(path) !in readOnly
    ensures var first := Optimize(files, readOnly, path, s1, codec, TempPath(path, token1));
      var second := Optimize(first.files, readOnly, path, s2, codec, TempPath(path, token2));
      BackupPath(path) in second.files && second.files[BackupPath(path)] == files[path]
  {
    BackupWrittenOnce(files, readOnly, path, s1, codec, token1);
    var first := Optimize(files, readOnly, path, s1, codec, TempPath(path, token1));
    BackupWrittenOnce(first.files, readOnly, path, s2, codec, token2);
  }

  /** The accept/reject rule. A successful run reports the file's size
      before the run; the file holds the encoder's output, of the reported
      smaller size, exactly when that size is under 95 % of the original;
      otherwise the file is untouched and the run reports no change. The
      reported savings are therefore 0 or at least 5.00 %. */
  lemma AcceptRejectRule(files: map<Path, Bytes>, readOnly: set<Path>, path: Path, s: Settings,
                         codec: Codec, token: string)
    requires ValidCodec(codec) && NoSlash(token)
    ensures var run := Optimize(files, readOnly, path, s, codec, TempPath(path, token));
      run.outcome.Optimized? ==>
        var o, p, saved := run.outcome.originalSize, run.outcome.optimizedSize, run.outcome.savings;
        && path in files && o == |files[path]| > 0
        && 0 <= p <= o
        && (Accepts(o, p) <==> p < o)
        && path in run.files
        && (p < o ==> |run.files[path]| == p)
        && (p == o <==> run.files[path] == files[path])
        && saved == SavingsPercent(o, p)
        && (saved == 0 <==> p == o)
        && (p < o ==> 500 <= saved <= 10000)
  {
    TempIsFresh(path, token);
    var run := Optimize(files, readOnly, path, s, codec, TempPath(path, token));
    if run.outcome.Optimized? {
      var o, p := run.outcome.originalSize, run.outcome.optimizedSize;
      SavingsOfAccepted(o, p);
      if p < o {
        assert |run.files[path]| == p;
      }
    }
  }

  /** The accept/reject rule in terms of what the encoder returns. When the
      run reaches the encoder: an encoder failure throws and keeps the file;
      an output under 95 % of the original becomes the file and is reported
      with its size and savings; any other output is dropped, the file is
      kept and the original size is reported with savings 0. A run that
      stops before the encoder never succeeds. */
  lemma EncoderDecides(files: map<Path, Bytes>, readOnly: set<Path>, path: Path, s: Settings,
                       codec: Codec, token: string)
    requires ValidCodec(codec) && NoSlash(token)
    ensures var run := Optimize(files, readOnly, path, s, codec, TempPath(path, token));
      var call := EncoderCall(files, path, s, codec);
      && (call.None? ==> !run.outcome.Optimized? && run.outcome != Thrown(SaveFailed))
      && (call.Some? ==>
            var out := codec.encode(call.value.0, call.value.1);
            var o := |files[path]|;
            && path in files && o > 0 && path in run.files
            && (out.None? ==> run.outcome == Thrown(SaveFailed) && run.files[path] == files[path])
            && (out.Some? && Accepts(o, |out.value|) ==>
                  run.outcome == Optimized(o, |out.value|, SavingsPercent(o, |out.value|))
                  && run.files[path] == out.value)
            && (out.Some? && !Accepts(o, |out.value|) ==>
                  run.outcome == Optimized(o, o, 0) && run.files[path] == files[path]))
  {
    TempIsFresh(path, token);
    if EncoderCall(files, path, s, codec).Some? {
      assert Decoded(codec, codec.fileType(path), []).None?;
      SavingsOfAccepted(|files[path]|, |files[path]|);
    }
  }

  /** A successful run never reports a larger file than it started with. */
  lemma OptimizedShrinks(files: map<Path, Bytes>, readOnly: set<Path>, path: Path, s: Settings,
                         codec: Codec, token: string)
    requires ValidCodec(codec) && NoSlash(token)
    ensures var run := Optimize(files, readOnly, path, s, codec, TempPath(path, token));
      run.outcome.Optimized? ==> run.outcome.optimizedSize <= run.outcome.originalSize
  {
    AcceptRejectRule(files, readOnly, path, s, codec, token);
  }

  /** The temporary file never outlives the run, and no path other than
      the file, its backup slot and the temporary file is touched. */
  lemma OnlyThreePathsChange(files: map<Path, Bytes>, readOnly: set<Path>, path: Path, s: Settings,
                             codec: Codec, token: string)
    requires ValidCodec(codec) && NoSlash(token)
    ensures var run := Optimize(files, readOnly, path, s, codec, TempPath(path, token));
      && (TempPath(path, token) !in files ==> TempPath(path, token) !in run.files)
      && forall q :: q != path && q != BackupPath(path) && q != TempPath(path, token) ==>
           (q in run.files <==> q in files) && (q in files ==> run.files[q] == files[q])
  {
    TempIsFresh(path, token);
  }

  /** Runs one optimisation on the disk. The clock advances by one exactly
      when uniqid() is reached, which is when the encoder is called, and the
      effect is that of Optimize with the temporary path built from the
      token read at the start. */
  method OptimizeImage(disk: Disk, path: Path, s: Settings, codec: Codec) returns (outcome: Outcome)
    requires ValidCodec(codec)
    modifies disk
    ensures var run := Optimize(old(disk.files), disk.readOnly, path, s, codec,
                                TempPath(path, UniqidAt(old(disk.clock))));
      outcome == run.outcome && disk.files == run.files
    ensures disk.clock == if EncoderCall(old(disk.files), path, s, codec).Some? then old(disk.clock) + 1 else old(disk.clock)
    ensures Step(outcome, disk.files, disk.clock) == OptimizeAt(old(disk.files), disk.readOnly, old(disk.clock), path, s, codec)
  {
    if path !in disk.files {
      return Failed(FileNotFound);
    }
    StageBackup(disk, path);
    var original := disk.files[path];
    var mime := codec.fileType(path);
    var resource: Option<Image> := None;
    if mime == Jpeg || mime == Png || mime == Gif {
      resource := codec.decode(mime, original);
    }
    if resource.None? {
      return Failed(NoResource);
    }
    assert Decoded(codec, mime, []).None?;
    var resized := ResizeImage(codec, mime, resource.value);
    if resized.ResizeError? {
      return Thrown(resized.message);
    }
    outcome := EncodeAndSave(disk, path, s, codec, mime, resized.image, |original|);
  }

  /** The backup step: copy the file to its slot when the slot is empty. */
  method StageBackup(disk: Disk, path: Path)
    requires path in disk.files
    modifies disk`files
    ensures disk.files == WithBackup(old(disk.files), disk.readOnly, path)
    ensures path in disk.files && disk.files[path] == old(disk.files)[path]
  {
    var backup := BackupDir + "/" + Basename(path);
    if backup !in disk.files {
      var _ := disk.Copy(path, backup);
    }
  }

  /** The resize step on a decoded image. */
  method ResizeImage(codec: Codec, mime: string, image: Image) returns (r: Resize)
    ensures r == Resized(codec, mime, image)
  {
    if image.width > MaxWidth {
      var newHeight := ScaledHeight(image.width, image.height);
      if newHeight < 1 {
        return ResizeError(CanvasFailed);
      }
      var resized := codec.resample(image, MaxWidth, newHeight, mime == Png);
      if resized.None? {
        return ResizeError(ResampleFailed);
      }
      return Scaled(resized.value);
    }
    return Kept(image);
  }

  /** From the temporary name to the result: the encoder's parameters
      (with the transparency check for lossy PNG), the encoder, and
      SaveResult. */
  method EncodeAndSave(disk: Disk, path: Path, s: Settings, codec: Codec, mime: string, image: Image,
                       originalSize: int) returns (outcome: Outcome)
    requires originalSize > 0 && (mime == Jpeg || mime == Png || mime == Gif)
    modifies disk
    ensures var plan := PlanFor(mime, s, IsLossy(s) && mime == Png && ReportsTransparency(codec, image));
      Run(outcome, disk.files)
        == Finish(old(disk.files), path, TempPath(path, UniqidAt(old(disk.clock))), originalSize, codec.encode(plan, image))
    ensures disk.clock == old(disk.clock) + 1
  {
    var token := disk.Uniqid();
    var temp := path + "." + token + ".tmp";
    TempIsFresh(path, token);
    var transparent := false;
    if IsLossy(s) && mime == Png {
      transparent := ScanImage(image, codec.gdIsResource);
    }
    var encoded := codec.encode(PlanFor(mime, s, transparent), image);
    outcome := SaveResult(disk, path, temp, originalSize, encoded);
  }

  /** has_transparency applied to a decoded image laid out as GD holds it. */
  method ScanImage(img: Image, isResource: bool) returns (transparent: bool)
    ensures transparent <==> isResource && Transparent(img)
  {
    var grid := new bv32[img.width, img.height]((x, y) requires 0 <= x < img.width && 0 <= y < img.height
                                                   => img.pixels[x][y]);
    transparent := HasTransparency(grid, isResource);
    if isResource && Transparent(img) {
      var x, y :| 0 <= x < img.width && 0 <= y < img.height && AlphaBits(img.pixels[x][y]) != 0;
      assert AlphaBits(grid[x, y]) != 0;
    }
  }

  /** The end of optimize_image on the disk: the encoder's output is
      written to the temporary file, then kept or discarded. */
  method SaveResult(disk: Disk, path: Path, temp: Path, originalSize: int, encoded: Option<Bytes>)
    returns (outcome: Outcome)
    requires originalSize > 0 && temp != path
    modifies disk`files
    ensures Run(outcome, disk.files) == Finish(old(disk.files), path, temp, originalSize, encoded)
  {
    if encoded.None? {
      var _ := disk.Unlink(temp);
      return Thrown(SaveFailed);
    }
    disk.Write(temp, encoded.value);
    var optimizedSize := |disk.files[temp]|;
    if Accepts(originalSize, optimizedSize) {
      var _ := disk.Unlink(path);
      var _ := disk.Rename(temp, path);
      assert disk.files == (old(disk.files) - {temp})[path := encoded.value];
    } else {
      var _ := disk.Unlink(temp);
      optimizedSize := originalSize;
    }
    return Optimized(originalSize, optimizedSize, SavingsPercent(originalSize, optimizedSize));
  }
}
