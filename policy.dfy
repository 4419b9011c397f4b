/** The optimisation policy of SlimSnap_Optimizer::optimize_image: the fixed
    resize rule, the mapping from the one quality knob to each format's
    encoder parameters, the 5 % accept/reject rule and the reported savings.
    All arithmetic is exact: PHP's float expressions are restated over the
    integers (see PHP's round(), RoundDiv). */
module Policy {
  import opened Php

  /** $max_width: images wider than this are scaled down to it. */
  const MaxWidth: int := 1140

  const Jpeg: string := "image/jpeg"
  const Png: string := "image/png"
  const Gif: string := "image/gif"

  /** The optimiser's own settings array after wp_parse_args() has filled
      in 'lossy' and 80. */
  datatype Settings = Settings(compressionType: string, quality: int)

  function DefaultSettings(): Settings {
    Settings("lossy", 80)
  }

  /** wp_parse_args($settings, $defaults) for the two keys the optimiser reads. */
  function ParseSettings(compressionType: Option<string>, quality: Option<int>): (s: Settings)
    ensures compressionType.None? ==> s.compressionType == "lossy"
    ensures compressionType.Some? ==> s.compressionType == compressionType.value
    ensures quality.None? ==> s.quality == 80
    ensures quality.Some? ==> s.quality == quality.value
  {
    Settings(
      match compressionType case Some(t) => t case None => "lossy",
      match quality case Some(q) => q case None => 80)
  }

  /** $settings['compression_type'] === 'lossy': any other string is lossless. */
  predicate IsLossy(s: Settings) {
    s.compressionType == "lossy"
  }

  /** The height after scaling width w down to MaxWidth:
      (int)round($max_width / ($width / $height)), i.e. round(1140 * h / w). */
  function ScaledHeight(w: int, h: int): int
    requires w > 0
  {
    RoundDiv(MaxWidth * h, w)
  }

  /** The dimensions the image is encoded at. */
  function TargetSize(w: int, h: int): (int, int)
    requires w > 0
  {
    if w > MaxWidth then (MaxWidth, ScaledHeight(w, h)) else (w, h)
  }

  /** The resize rule: images at most MaxWidth wide keep their size; wider
      ones become exactly MaxWidth wide and no taller than before, keeping
      the aspect ratio to within half a pixel of height. */
  lemma ResizeRule(w: int, h: int)
    requires w > 0 && h >= 0
    ensures w <= MaxWidth ==> TargetSize(w, h) == (w, h)
    ensures w > MaxWidth ==> TargetSize(w, h).0 == MaxWidth
    ensures w > MaxWidth ==> 0 <= TargetSize(w, h).1 <= h
    ensures w > MaxWidth ==>
      w * (2 * TargetSize(w, h).1 - 1) <= 2 * MaxWidth * h <= w * (2 * TargetSize(w, h).1 + 1)
  {
    if w > MaxWidth {
      var r := ScaledHeight(w, h);
      RoundDivBounds(MaxWidth * h, w);
      RoundDivNonNegative(MaxWidth * h, w);
      assert w * (2 * r - 1) <= 2 * MaxWidth * h;
      assert 2 * MaxWidth * h <= 2 * w * h;
      assert w * (2 * r) < w * (2 * h + 2);
      CancelFactor(w, 2 * r, 2 * h + 2);
    }
  }

  /** The scaled height is 0, so that creating the canvas fails, exactly
      when the image is more than 2280 times as wide as it is tall. */
  lemma ScaledHeightZero(w: int, h: int)
    requires w > MaxWidth && h >= 0
    ensures ScaledHeight(w, h) == 0 <==> w > 2 * MaxWidth * h
  {
    var n := 2 * MaxWidth * h + w;
    assert ScaledHeight(w, h) == n / (2 * w);
    if w > 2 * MaxWidth * h {
      assert 0 <= n < 2 * w;
    } else {
      assert n >= 2 * w;
      assert n / (2 * w) >= 1;
    }
  }

  /** imagejpeg's quality argument. */
  function JpegQuality(s: Settings): int {
    if IsLossy(s) then Min(100, s.quality) else 92
  }

  /** JPEG quality is the requested quality capped at 100 in lossy mode and
      a fixed 92 otherwise; for a quality in 0..100 it is always in 0..100. */
  lemma JpegQualityRange(s: Settings)
    ensures IsLossy(s) ==> JpegQuality(s) <= 100 && (s.quality <= 100 ==> JpegQuality(s) == s.quality)
    ensures IsLossy(s) && s.quality > 100 ==> JpegQuality(s) == 100
    ensures !IsLossy(s) ==> JpegQuality(s) == 92
    ensures 0 <= s.quality ==> 0 <= JpegQuality(s) <= 100
  {
  }

  /** max($floor, min(256, (int)round(256 * $quality / 100))): the palette
      size for a lossy PNG (floor 16) or GIF (floor 32). */
  function PaletteColors(quality: int, floor: int): (colors: int)
    requires floor <= 256
    ensures floor <= colors <= 256
  {
    Max(floor, Min(256, RoundDiv(256 * quality, 100)))
  }

  /** For a quality in 0..100 the upper clamp never bites: the palette is
      the rounded share of 256 colours raised to the floor, so the floor at
      quality 0 and all 256 colours at quality 100. */
  lemma PaletteColorsScale(quality: int, floor: int)
    requires 0 <= floor <= 256 && 0 <= quality <= 100
    ensures PaletteColors(quality, floor) == Max(floor, RoundDiv(256 * quality, 100))
    ensures quality == 0 ==> PaletteColors(quality, floor) == floor
    ensures quality == 100 ==> PaletteColors(quality, floor) == 256
  {
    RoundDivBounds(256 * quality, 100);
    var r := RoundDiv(256 * quality, 100);
    assert 100 * (2 * r - 1) <= 512 * quality <= 51200;
    assert 200 * r <= 51300;
  }

  /** min(9, (int)round(9 * (100 - $quality) / 100)): the zlib level for a
      PNG kept in true colour. */
  function PngLevel(quality: int): int {
    Min(9, RoundDiv(9 * (100 - quality), 100))
  }

  /** For a quality in 0..100 the level is in 0..9, 9 at quality 0 and 0 at
      quality 100; it is never above 9. */
  lemma PngLevelRange(quality: int)
    ensures PngLevel(quality) <= 9
    ensures 0 <= quality <= 100 ==> 0 <= PngLevel(quality)
    ensures quality == 0 ==> PngLevel(quality) == 9
    ensures quality == 100 ==> PngLevel(quality) == 0
  {
    if 0 <= quality <= 100 {
      RoundDivNonNegative(9 * (100 - quality), 100);
    }
  }

  /** There is no lower clamp: a quality above 100 gives a negative level. */
  lemma PngLevelBelowZero()
    ensures PngLevel(106) == -1
  {
    assert RoundDiv(9 * (100 - 106), 100) == -((2 * 54 + 100) / 200);
  }

  /** What the encoder is asked for. */
  datatype EncodeParams =
    | JpegParams(quality: int)                     // imagejpeg($img, $tmp, $quality), progressive
    | PngPaletteParams(colors: int, level: int)    // imagetruecolortopalette then imagepng(..., 9)
    | PngTrueColorParams(level: int)               // imagepng(..., $compression)
    | GifParams(palette: Option<int>)              // optional imagetruecolortopalette, then imagegif

  /** The GIF palette size: quantised only in lossy mode. */
  function GifPalette(s: Settings): Option<int> {
    if IsLossy(s) then Some(PaletteColors(s.quality, 32)) else None
  }

  /** The encoder parameters for a supported MIME type; `transparent` is
      what has_transparency reported (asked only for lossy PNG). */
  function PlanFor(mime: string, s: Settings, transparent: bool): EncodeParams
    requires mime == Jpeg || mime == Png || mime == Gif
  {
    if mime == Jpeg then JpegParams(JpegQuality(s))
    else if mime == Png then
      if IsLossy(s) && !transparent then PngPaletteParams(PaletteColors(s.quality, 16), 9)
      else PngTrueColorParams(PngLevel(s.quality))
    else GifParams(GifPalette(s))
  }

  /** Every quality in 0..100 maps to in-range encoder parameters: JPEG
      quality in 0..100, PNG palette 16..256 at level 9, PNG level 0..9,
      GIF palette 32..256; lossy opaque PNG is the only palette PNG. */
  lemma PlanInRange(mime: string, s: Settings, transparent: bool)
    requires mime == Jpeg || mime == Png || mime == Gif
    requires 0 <= s.quality <= 100
    ensures var p := PlanFor(mime, s, transparent);
      match p
      case JpegParams(q) => 0 <= q <= 100
      case PngPaletteParams(c, l) => 16 <= c <= 256 && l == 9 && IsLossy(s) && !transparent
      case PngTrueColorParams(l) => 0 <= l <= 9 && (IsLossy(s) ==> transparent)
      case GifParams(pal) => pal.Some? <==> IsLossy(s) && (pal.Some? ==> 32 <= pal.value <= 256)
  {
    PngLevelRange(s.quality);
  }

  /** $optimized_size < $original_size * 0.95, exactly. */
  predicate Accepts(originalSize: int, optimizedSize: int) {
    20 * optimizedSize < 19 * originalSize
  }

  /** round(($original - $optimized) / $original * 100, 2), as hundredths
      of a percent. */
  function SavingsPercent(originalSize: int, optimizedSize: int): int
    requires originalSize > 0
  {
    RoundDiv((originalSize - optimizedSize) * 10000, originalSize)
  }

  /** An accepted result saves at least 5.00 % (as reported after rounding
      to two decimals) and at most 100 %; an unchanged size saves 0. */
  lemma SavingsOfAccepted(originalSize: int, optimizedSize: int)
    requires originalSize > 0 && optimizedSize >= 0
    ensures Accepts(originalSize, optimizedSize) ==>
      optimizedSize < originalSize && 500 <= SavingsPercent(originalSize, optimizedSize) <= 10000
    ensures SavingsPercent(originalSize, originalSize) == 0
  {
    var o, p := originalSize, optimizedSize;
    if Accepts(o, p) {
      RoundDivBounds((o - p) * 10000, o);
      SavingsBetween(o, o - p, SavingsPercent(o, p));
    }
  }

  /** The arithmetic step of SavingsOfAccepted: a saving d of more than a
      twentieth of o rounds to at least 500 hundredths of a percent. */
  lemma SavingsBetween(o: int, d: int, r: int)
    requires o > 0 && 20 * d > o && d <= o
    requires o * (2 * r - 1) <= 20000 * d <= o * (2 * r + 1)
    ensures 500 <= r <= 10000
  {
    assert o * 999 < 1000 * o < 20000 * d;
    CancelFactor(o, 999, 2 * r + 1);
    assert 20000 * d <= o * 20000 < o * 20002;
    CancelFactor(o, 2 * r - 1, 20002);
  }

  /** The reported savings can be exactly 5.00 although the unrounded share
      is above 5 %: 100000 bytes down to 94999 saves 5.001 %. */
  lemma SavingsCanRoundToFive()
    ensures Accepts(100000, 94999) && SavingsPercent(100000, 94999) == 500
  {
  }
}
