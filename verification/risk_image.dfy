/** Classification of a whole raster: every pixel's colour is mapped to the
    key of its nearest palette entry, block by block over a grid of chunks,
    and "no data" pixels are masked. */
module RiskImage {
  import opened Wrappers
  import opened Colour
  import opened Palette
  import opened Classifier
  import opened Grids

  /** A raster as read from file, band-major: bands[b][row][col]. */
  datatype Image = Image(bands: seq<seq<seq<byte>>>, height: nat, width: nat)

  /** One output cell: masked ("no data") or a risk value stored as uint8. */
  datatype Cell = Masked | Value(v: byte)

  /** The subtraction of the palette from a chunk fails to broadcast. */
  datatype ShapeError = BroadcastError(bandCount: nat)

  /** Every band has height rows of width samples, as in an array. */
  ghost predicate WellShaped(img: Image) {
    && (forall b :: 0 <= b < |img.bands| ==> |img.bands[b]| == img.height)
    && (forall b, r :: 0 <= b < |img.bands| && 0 <= r < img.height ==> |img.bands[b][r]| == img.width)
  }

  /** A band count the three colour channels of the palette broadcast
      against: one band (grey, repeated) or at least three. */
  predicate Broadcasts(bandCount: nat) {
    bandCount == 1 || bandCount >= 3
  }

  /** The first three bands of an image (the slice image[:3]). */
  function ColourBands(img: Image): (d: Image)
    requires WellShaped(img)
    ensures WellShaped(d) && d.height == img.height && d.width == img.width
    ensures |d.bands| == Min(|img.bands|, 3)
    ensures forall b :: 0 <= b < |d.bands| ==> d.bands[b] == img.bands[b]
  {
    Image(img.bands[..Min(|img.bands|, 3)], img.height, img.width)
  }

  /** The colour of one pixel: its first three samples, or its one sample
      repeated when the image has a single band. */
  function PixelColour(img: Image, r: nat, c: nat): Rgb
    requires WellShaped(img) && Broadcasts(|img.bands|)
    requires r < img.height && c < img.width
  {
    if |img.bands| == 1 then
      var v := img.bands[0][r][c];
      Rgb(v, v, v)
    else
      Rgb(img.bands[0][r][c], img.bands[1][r][c], img.bands[2][r][c])
  }

  /** Broadcasting a single band against the three colour channels is the
      same as classifying the image with that band written out three times. */
  lemma GreyBroadcast(img: Image, r: nat, c: nat)
    requires WellShaped(img) && |img.bands| == 1
    requires r < img.height && c < img.width
    ensures var grey := Image([img.bands[0], img.bands[0], img.bands[0]], img.height, img.width);
      WellShaped(grey) && PixelColour(grey, r, c) == PixelColour(img, r, c)
  {
  }

  /** The label the classifier gives the pixel at (r, c). */
  function PixelRisk(img: Image, r: nat, c: nat): Label
    requires WellShaped(img) && Broadcasts(|img.bands|)
    requires r < img.height && c < img.width
  {
    RiskFromColour(PixelColour(img, r, c))
  }

  /** The chunk of rows r0..r1 and columns c0..c1 of every band. */
  function SubImage(img: Image, r0: nat, r1: nat, c0: nat, c1: nat): (s: Image)
    requires WellShaped(img)
    requires r0 <= r1 <= img.height && c0 <= c1 <= img.width
    ensures WellShaped(s) && |s.bands| == |img.bands|
    ensures s.height == r1 - r0 && s.width == c1 - c0
    ensures forall b, i, j :: 0 <= b < |s.bands| && 0 <= i < s.height && 0 <= j < s.width ==>
      s.bands[b][i][j] == img.bands[b][r0 + i][c0 + j]
  {
    Image(
      seq(|img.bands|, b requires 0 <= b < |img.bands| =>
        seq(r1 - r0, i requires 0 <= i < r1 - r0 => img.bands[b][r0 + i][c0..c1])),
      r1 - r0, c1 - c0)
  }

  /** A pixel of a chunk is the pixel at the offset position of the image. */
  lemma SubImagePixel(img: Image, r0: nat, r1: nat, c0: nat, c1: nat, i: nat, j: nat)
    requires WellShaped(img) && Broadcasts(|img.bands|)
    requires r0 <= r1 <= img.height && c0 <= c1 <= img.width
    requires i < r1 - r0 && j < c1 - c0
    ensures PixelColour(SubImage(img, r0, r1, c0, c1), i, j) == PixelColour(img, r0 + i, c0 + j)
  {
  }

  /** The per-chunk step: the label of every pixel of a chunk. */
  function CalculateRisk(chunk: Image): (g: Grid<Label>)
    requires WellShaped(chunk) && Broadcasts(|chunk.bands|)
    ensures IsRect(g, chunk.height, chunk.width)
    ensures forall i, j :: 0 <= i < chunk.height && 0 <= j < chunk.width ==> g[i][j] == PixelRisk(chunk, i, j)
  {
    seq(chunk.height, i requires 0 <= i < chunk.height =>
      seq(chunk.width, j requires 0 <= j < chunk.width => PixelRisk(chunk, i, j)))
  }

  /** The classified chunks of rows r0..r1, joined left to right. */
  function RowBand(img: Image, r0: nat, r1: nat, cs: seq<(nat, nat)>): (g: Grid<Label>)
    requires WellShaped(img) && Broadcasts(|img.bands|)
    requires r0 <= r1 <= img.height && ValidChunks(cs, img.width)
    ensures |g| == r1 - r0
    decreases |cs|
  {
    if cs == [] then seq(r1 - r0, _ => [])
    else HJoin(CalculateRisk(SubImage(img, r0, r1, cs[0].0, cs[0].1)), RowBand(img, r0, r1, cs[1..]))
  }

  /** The row bands of the given row chunks, stacked top to bottom. */
  function Assemble(img: Image, rs: seq<(nat, nat)>, cs: seq<(nat, nat)>): Grid<Label>
    requires WellShaped(img) && Broadcasts(|img.bands|)
    requires ValidChunks(rs, img.height) && ValidChunks(cs, img.width)
    decreases |rs|
  {
    if rs == [] then []
    else RowBand(img, rs[0].0, rs[0].1, cs) + Assemble(img, rs[1..], cs)
  }

  lemma ChunkPixel(img: Image, r0: nat, r1: nat, c0: nat, c1: nat, i: nat, j: nat)
    requires WellShaped(img) && Broadcasts(|img.bands|)
    requires r0 <= r1 <= img.height && c0 <= c1 <= img.width
    requires i < r1 - r0 && j < c1 - c0
    ensures CalculateRisk(SubImage(img, r0, r1, c0, c1))[i][j] == CalculateRisk(img)[r0 + i][c0 + j]
  {
    var sub := SubImage(img, r0, r1, c0, c1);
    SubImagePixel(img, r0, r1, c0, c1, i, j);
  }

  /** Classifying a chunk gives the matching rectangle of the classified
      image: the classification is pixel-local. */
  lemma ChunkIsCrop(img: Image, r0: nat, r1: nat, c0: nat, c1: nat)
    requires WellShaped(img) && Broadcasts(|img.bands|)
    requires r0 <= r1 <= img.height && c0 <= c1 <= img.width
    ensures CalculateRisk(SubImage(img, r0, r1, c0, c1))
            == Crop(CalculateRisk(img), img.width, r0, r1, c0, c1)
  {
    var sub := SubImage(img, r0, r1, c0, c1);
    var a := CalculateRisk(sub);
    var b := Crop(CalculateRisk(img), img.width, r0, r1, c0, c1);
    forall i | 0 <= i < r1 - r0
      ensures a[i] == b[i]
    {
      assert |a[i]| == |b[i]| == c1 - c0;
      forall j | 0 <= j < c1 - c0
        ensures a[i][j] == b[i][j]
      {
        ChunkPixel(img, r0, r1, c0, c1, i, j);
      }
    }
  }

  lemma {:induction false} RowBandIsCrop(img: Image, r0: nat, r1: nat, c0: nat, size: nat)
    requires WellShaped(img) && Broadcasts(|img.bands|)
    requires r0 <= r1 <= img.height && c0 <= img.width && size >= 1
    ensures ValidChunks(ChunksFrom(c0, img.width, size), img.width)
    ensures RowBand(img, r0, r1, ChunksFrom(c0, img.width, size))
            == Crop(CalculateRisk(img), img.width, r0, r1, c0, img.width)
    decreases img.width - c0
  {
    ChunksValid(c0, img.width, size);
    var g := CalculateRisk(img);
    var cs := ChunksFrom(c0, img.width, size);
    if c0 < img.width {
      var e := Min(c0 + size, img.width);
      assert cs[1..] == ChunksFrom(e, img.width, size);
      RowBandIsCrop(img, r0, r1, e, size);
      ChunkIsCrop(img, r0, r1, c0, e);
      CropHJoin(g, img.width, r0, r1, c0, e, img.width);
    }
  }

  lemma {:induction false} AssembleIsCrop(img: Image, r0: nat, rsize: nat, csize: nat)
    requires WellShaped(img) && Broadcasts(|img.bands|)
    requires r0 <= img.height && rsize >= 1 && csize >= 1
    ensures ValidChunks(ChunksFrom(r0, img.height, rsize), img.height)
    ensures ValidChunks(Chunks(img.width, csize), img.width)
    ensures Assemble(img, ChunksFrom(r0, img.height, rsize), Chunks(img.width, csize))
            == Crop(CalculateRisk(img), img.width, r0, img.height, 0, img.width)
    decreases img.height - r0
  {
    ChunksValid(r0, img.height, rsize);
    ChunksValid(0, img.width, csize);
    var g := CalculateRisk(img);
    var rs := ChunksFrom(r0, img.height, rsize);
    if r0 < img.height {
      var e := Min(r0 + rsize, img.height);
      assert rs[1..] == ChunksFrom(e, img.height, rsize);
      AssembleIsCrop(img, e, rsize, csize);
      RowBandIsCrop(img, r0, e, 0, csize);
      CropVJoin(g, img.width, r0, e, img.height, 0, img.width);
    }
  }

  /** Chunk invariance: for ANY chunk lengths, assembling the classified
      chunks gives the same grid as classifying the image in one piece. */
  lemma ChunkInvariance(img: Image, rsize: nat, csize: nat)
    requires WellShaped(img) && Broadcasts(|img.bands|)
    requires rsize >= 1 && csize >= 1
    ensures ValidChunks(Chunks(img.height, rsize), img.height)
    ensures ValidChunks(Chunks(img.width, csize), img.width)
    ensures Assemble(img, Chunks(img.height, rsize), Chunks(img.width, csize)) == CalculateRisk(img)
  {
    AssembleIsCrop(img, 0, rsize, csize);
    CropWhole(CalculateRisk(img), img.width);
  }

  /** The masking step: "no data" becomes masked, a level is stored as an
      unsigned byte. */
  function ToCell(l: Label): (c: Cell)
    ensures c.Masked? <==> l == NoData
    ensures l.Level? && l.n < 256 ==> c == Value(l.n as byte)
  {
    match l
    case NoData => Masked
    case Level(n) => Value((n % 256) as byte)
  }

  /** Masks the "no data" labels of a grid and stores the levels as bytes. */
  function MaskInvalid(g: Grid<Label>): (m: Grid<Cell>)
    ensures |m| == |g|
    ensures forall i :: 0 <= i < |g| ==> |m[i]| == |g[i]|
    ensures forall i, j :: 0 <= i < |g| && 0 <= j < |g[i]| ==>
      (m[i][j] == Masked <==> g[i][j] == NoData)
    ensures forall i, j :: 0 <= i < |g| && 0 <= j < |g[i]| && g[i][j].Level? && g[i][j].n < 256 ==>
      m[i][j] == Value(g[i][j].n as byte)
  {
    seq(|g|, i requires 0 <= i < |g| => seq(|g[i]|, j requires 0 <= j < |g[i]| => ToCell(g[i][j])))
  }

  /** A grid of the given shape whose cell (i, j) is the masked label of
      pixel (i, j); unmasked cells hold a level 1 to 10. */
  ghost predicate IsRiskMap(img: Image, g: Grid<Cell>)
    requires WellShaped(img) && Broadcasts(|img.bands|)
  {
    && |g| == img.height
    && (forall i :: 0 <= i < |g| ==> |g[i]| == img.width)
    && (forall i, j :: 0 <= i < img.height && 0 <= j < img.width ==>
          (g[i][j] == Masked <==> PixelRisk(img, i, j) == NoData))
    && (forall i, j :: 0 <= i < img.height && 0 <= j < img.width && g[i][j].Value? ==>
          1 <= g[i][j].v <= 10 && PixelRisk(img, i, j) == Level(g[i][j].v as nat))
  }

  /** The whole classification: the first three bands, chunked into blocks
      of a twelfth of each side (at least one pixel), each block classified,
      the blocks joined, "no data" masked. Fails when the band count does
      not broadcast against three colour channels. */
  function RiskFromImage(img: Image): (res: Result<Grid<Cell>, ShapeError>)
    requires WellShaped(img)
    ensures res.Failure? <==> !Broadcasts(|img.bands|)
    ensures res.Failure? ==> res.error == BroadcastError(|img.bands|)
    ensures res.Success? ==> IsRiskMap(img, res.value)
  {
    var data := ColourBands(img);
    if !Broadcasts(|data.bands|) then Failure(BroadcastError(|img.bands|))
    else
      var rsize, csize := ChunkSize(data.height), ChunkSize(data.width);
      ChunkInvariance(data, rsize, csize);
      var labels := Assemble(data, Chunks(data.height, rsize), Chunks(data.width, csize));
      MaskedRiskMap(img, labels);
      Success(MaskInvalid(labels))
  }

  /** Masking the labels of the colour bands gives a risk map of the image. */
  lemma MaskedRiskMap(img: Image, labels: Grid<Label>)
    requires WellShaped(img) && Broadcasts(|img.bands|)
    requires labels == CalculateRisk(ColourBands(img))
    ensures IsRiskMap(img, MaskInvalid(labels))
  {
    var data := ColourBands(img);
    forall i, j | 0 <= i < img.height && 0 <= j < img.width
      ensures labels[i][j] == PixelRisk(img, i, j)
    {
      assert PixelColour(data, i, j) == PixelColour(img, i, j);
    }
  }

  /** A risk map of an image is determined by the image. */
  lemma RiskMapUnique(img: Image, g1: Grid<Cell>, g2: Grid<Cell>)
    requires WellShaped(img) && Broadcasts(|img.bands|)
    requires IsRiskMap(img, g1) && IsRiskMap(img, g2)
    ensures g1 == g2
  {
    forall i | 0 <= i < img.height
      ensures g1[i] == g2[i]
    {
      forall j | 0 <= j < img.width
        ensures g1[i][j] == g2[i][j]
      {
        if g1[i][j].Value? && g2[i][j].Value? {
          assert Level(g1[i][j].v as nat) == Level(g2[i][j].v as nat);
        }
      }
    }
  }

  /** Only the first three bands matter: an alpha band (or any further band)
      never changes the result. */
  lemma AlphaIgnored(img1: Image, img2: Image)
    requires WellShaped(img1) && WellShaped(img2)
    requires img1.height == img2.height && img1.width == img2.width
    requires |img1.bands| >= 3 && |img2.bands| >= 3
    requires img1.bands[..3] == img2.bands[..3]
    ensures RiskFromImage(img1) == RiskFromImage(img2)
  {
    var g1, g2 := RiskFromImage(img1).value, RiskFromImage(img2).value;
    forall i, j | 0 <= i < img1.height && 0 <= j < img1.width
      ensures PixelRisk(img1, i, j) == PixelRisk(img2, i, j)
    {
      assert img1.bands[0] == img1.bands[..3][0] == img2.bands[0];
      assert img1.bands[1] == img1.bands[..3][1] == img2.bands[1];
      assert img1.bands[2] == img1.bands[..3][2] == img2.bands[2];
    }
    assert IsRiskMap(img1, g2);
    RiskMapUnique(img1, g1, g2);
  }

  /** An image all of whose samples are zero. */
  ghost predicate AllZero(img: Image)
    requires WellShaped(img)
  {
    forall b, r, c :: 0 <= b < |img.bands| && 0 <= r < img.height && 0 <= c < img.width ==>
      img.bands[b][r][c] == 0
  }

  /** As the source is written, a fully transparent RGBA image (every sample
      zero) is not masked: every pixel is classified as risk level 10. */
  lemma TransparentIsLevelTen(img: Image)
    requires WellShaped(img) && |img.bands| == 4 && AllZero(img)
    ensures RiskFromImage(img).Success?
    ensures forall i, j :: 0 <= i < img.height && 0 <= j < img.width ==>
      RiskFromImage(img).value[i][j] == Value(10)
  {
    var g := RiskFromImage(img).value;
    forall i, j | 0 <= i < img.height && 0 <= j < img.width
      ensures g[i][j] == Value(10)
    {
      assert PixelColour(img, i, j) == Rgb(0, 0, 0);
      BlackIsLevelTen();
    }
  }

  /** Whether pixel (r, c) carries an alpha band and is fully transparent. */
  predicate IsTransparent(img: Image, r: nat, c: nat)
    requires WellShaped(img) && r < img.height && c < img.width
  {
    |img.bands| >= 4 && img.bands[3][r][c] == 0
  }

  /** A risk map that also masks fully transparent pixels: a cell is masked
      exactly when its pixel is transparent or nearest "no data", and holds
      its pixel's level 1 to 10 otherwise. */
  ghost predicate IsAlphaMaskedRiskMap(img: Image, g: Grid<Cell>)
    requires WellShaped(img) && Broadcasts(|img.bands|)
  {
    && |g| == img.height
    && (forall i :: 0 <= i < |g| ==> |g[i]| == img.width)
    && (forall i, j :: 0 <= i < img.height && 0 <= j < img.width ==>
          (g[i][j] == Masked <==> IsTransparent(img, i, j) || PixelRisk(img, i, j) == NoData))
    && (forall i, j :: 0 <= i < img.height && 0 <= j < img.width && g[i][j].Value? ==>
          1 <= g[i][j].v <= 10 && PixelRisk(img, i, j) == Level(g[i][j].v as nat))
  }

  /** The classification with fully transparent pixels masked as well: the
      behaviour the "no data" entry is meant to give background pixels. */
  function RiskFromImageMaskingAlpha(img: Image): (res: Result<Grid<Cell>, ShapeError>)
    requires WellShaped(img)
    ensures res.Failure? <==> !Broadcasts(|img.bands|)
    ensures res.Failure? ==> res.error == BroadcastError(|img.bands|)
    ensures res.Success? ==> IsAlphaMaskedRiskMap(img, res.value)
  {
    match RiskFromImage(img)
    case Failure(e) => Failure(e)
    case Success(g) =>
      Success(seq(img.height, i requires 0 <= i < img.height =>
        seq(img.width, j requires 0 <= j < img.width =>
          if IsTransparent(img, i, j) then Masked else g[i][j])))
  }

  /** The corrected classification differs from the one as written only
      at transparent pixels, which it masks. */
  lemma MaskingAlphaAgrees(img: Image)
    requires WellShaped(img)
    ensures RiskFromImageMaskingAlpha(img).Success? <==> RiskFromImage(img).Success?
    ensures RiskFromImage(img).Success? ==>
      forall i, j :: 0 <= i < img.height && 0 <= j < img.width ==>
        RiskFromImageMaskingAlpha(img).value[i][j]
        == (if IsTransparent(img, i, j) then Masked else RiskFromImage(img).value[i][j])
  {
    if RiskFromImage(img).Success? {
      var g1: Grid<Cell>, g2: Grid<Cell> := RiskFromImageMaskingAlpha(img).value, RiskFromImage(img).value;
      forall i, j | 0 <= i < img.height && 0 <= j < img.width && !IsTransparent(img, i, j)
        ensures g1[i][j] == g2[i][j]
      {
        if g1[i][j].Value? && g2[i][j].Value? {
          assert Level(g1[i][j].v as nat) == Level(g2[i][j].v as nat);
        }
      }
    }
  }

  /** With transparency masked, a fully transparent RGBA image is fully
      masked. */
  lemma TransparentIsMasked(img: Image)
    requires WellShaped(img) && |img.bands| == 4 && AllZero(img)
    ensures RiskFromImageMaskingAlpha(img).Success?
    ensures forall i, j :: 0 <= i < img.height && 0 <= j < img.width ==>
      RiskFromImageMaskingAlpha(img).value[i][j] == Masked
  {
  }
}
