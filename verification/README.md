# Risk-map kernels in Dafny

This project models the two pure kernels of a risk-map pipeline. The pipeline
downloads biodiversity-risk map layers as web-map tiles, stitches each layer into
one image, and turns the image's colours back into risk levels.

- **Colour-to-risk classification** (`risk_tool.py`).
  - An 11-entry palette maps "no data" and the risk levels 1 to 10 to fixed
    `#RRGGBB` colours.
  - `risk_from_color` returns the key of the palette entry nearest to a
    colour. On a tie, the first entry in palette order wins, as numpy's
    `argmin` picks it.
  - `risk_from_image` applies the same rule to every pixel:
    - it uses only the first three bands;
    - it splits the image into chunks of a twelfth of each side, at least one
      pixel;
    - it masks the "no data" key and stores levels as unsigned bytes.
- **Tile stitching** (`map_download.py`).
  - Tile requests are made in x-major order. Each request's path is
    `/tile/{zoom}/{y}/{x}`.
  - The downloads are taken off the front of a list in the same nested order.
  - Each tile that arrived is pasted at `(x * tile_size, y * tile_size)` on a
    transparent `tile_size * nx` by `tile_size * ny` RGBA canvas.

Modules:

- `Wrappers`: `Option` and `Result`.
- `Colour`:
  - byte triples;
  - squared Euclidean distance;
  - `#RRGGBB` parsing and rendering.
- `Palette`: the palette, as written and as decoded.
- `Classifier`:
  - first-minimum argmin;
  - nearest-colour classification.
- `Grids`:
  - rectangular grids;
  - crops and joins;
  - the chunking of an axis.
- `RiskImage`:
  - whole-image classification;
  - band handling;
  - chunk assembly;
  - masking.
- `TilePath`:
  - decimal rendering;
  - the tile request path and its parser.
- `TileGrid`:
  - the request order;
  - the FIFO consumption loop;
  - pasting;
  - the layout of the stitched canvas.

Modelling choices:

- Colours are byte triples. Distance is the integer squared Euclidean
  distance.
  - The source compares `sqrt` of the squared distance on colours divided
    by 255.
  - Both maps are strictly increasing, so the argmin is the same.
    `Classifier.ArgMinMonotone` and `Classifier.RiskFromColourMonotone`
    prove this.
- The "no data" key is a NaN in the source. Here it is the constructor
  `NoData`.
- Band handling follows numpy broadcasting of `image[:3]` against the three
  palette channels:
  - one band is repeated as grey;
  - three or more bands use the first three;
  - zero or two bands fail with a broadcast error. The model returns this
    as `Failure(BroadcastError(n))`.
- Downloads are a parameter `fetch: string -> Option<Tile>`. `None` stands
  for a non-200 answer (map_download.py:59-63). A download that raises is
  not modelled (see Left out).

Two readings the code invites but does not bear out:

- **Number of chunks.** The chunk length `max(n // 12, 1)` (risk_tool.py:67-71)
  suggests a 12 by 12 chunk grid. It is not one: an axis of n >= 12 cells has
  `ceil(n / (n // 12))` chunks. That can be anything from 12 to 23 (23 for
  n = 23). An axis shorter than 12 cells has one chunk per cell.
  `Grids.ChunkGrid` proves these counts. The output does not depend on the
  chunking (`RiskImage.ChunkInvariance`).
- **Transparent input.** The grey "no data" entry (risk_tool.py:15) is the
  palette's only entry for pixels without data, and `masked_invalid` at
  risk_tool.py:88 masks exactly those. A fully transparent pixel, such as
  the gap a skipped tile leaves in a stitched map, is nevertheless not
  classified as "no data": see Findings.

## Model

| member | source | states |
|---|---|---|
| `Palette.PaletteShape` | risk_tool.py:15-28 | the palette has 11 entries: "no data" first, then levels 1 to 10 in order; no two entries share a colour |
| `Palette.PaletteMatchesHtml` | risk_tool.py:15-28 | each decoded palette colour is the decoding of the `#RRGGBB` string written for the same key |
| `Colour.SqDist` | risk_tool.py:48 | the distance of two colours is zero exactly when they are equal |
| `Colour.HexByte` | risk_tool.py:28 | two characters decode exactly when both are hexadecimal digits, to 16 times the first digit plus the second |
| `Colour.ParseHex` | risk_tool.py:28 | a string decodes as a colour exactly when it is `#` followed by six hexadecimal digits, in either letter case |
| `Colour.ParseToHex` | risk_tool.py:28 | parsing the `#RRGGBB` rendering of any colour gives that colour back |
| `Colour.ToHexParse` | risk_tool.py:15-28 | an upper-case `#RRGGBB` string that parses is rendered back exactly, as every palette string is written |
| `Classifier.ArgMin` | risk_tool.py:49 | the result is a position of a minimum distance, and no earlier position holds that minimum (first minimum on ties) |
| `Classifier.ArgMinUnique` | risk_tool.py:49 | a first minimum is unique |
| `Classifier.ArgMinMonotone` | risk_tool.py:48-49 | a strictly increasing transform of non-negative distances (square root, division by 255) does not move the argmin |
| `Classifier.Distances` | risk_tool.py:46-48 | one distance per palette entry, in palette order; each is non-negative and zero exactly at an entry of the colour itself |
| `Classifier.NearestIndex` | risk_tool.py:49 | the position argmin picks among the palette distances: inside the palette, at a minimum, the first such |
| `Classifier.RiskFromColour` | risk_tool.py:45-49 | the label is "no data" or a level 1 to 10; it is the key of a palette entry whose distance to the colour is minimal and strictly below every earlier entry's |
| `Classifier.RiskFromColourUnique` | risk_tool.py:45-49 | a label is the classification of a colour if and only if it is the nearest-first key |
| `Classifier.ExactMatch` | risk_tool.py:15-28 | a colour equal to a palette colour is classified as that entry's key |
| `Classifier.TieBreak` | risk_tool.py:49 | of two entries at equal distance, the later is never returned; when the earlier one is nearest of all, the answer is no later than it |
| `Classifier.RiskFromColourMonotone` | risk_tool.py:46-49 | minimising any strictly increasing function of the squared distance, such as the Euclidean norm, gives the same label |
| `Classifier.BlackIsLevelTen` | risk_tool.py:45-49 | black is classified as level 10, not as "no data" |
| `Grids.ChunkSize` | risk_tool.py:67-71 | the chunk length is at least 1; it is a twelfth of the axis rounded down when the axis has 12 or more cells, and 1 otherwise |
| `Grids.Chunks` | risk_tool.py:72 | the blocks of an axis of n cells: ceil(n / chunk length) of them, running from the first cell to the last without gap or overlap, each non-empty and at most the chunk length long |
| `Grids.ChunksBounded` | risk_tool.py:72 | every chunk `ChunksFrom` produces is non-empty, at most the chunk length long, and inside the axis |
| `Grids.ChunksContiguous` | risk_tool.py:72 | the chunks start at the first cell, each begins where the previous ends, and the last ends at the axis end |
| `Grids.ChunksCount` | risk_tool.py:72 | a non-empty axis is cut into ceil(length / chunk length) chunks |
| `Grids.ChunkGrid` | risk_tool.py:67-72 | an axis of at least 12 cells has between 12 and 23 chunks; a shorter non-empty axis has one chunk per cell |
| `RiskImage.ColourBands` | risk_tool.py:64 | the colour data is the first three bands, or all bands when there are fewer, with the image's height and width |
| `RiskImage.GreyBroadcast` | risk_tool.py:64-79 | the colour `PixelColour` gives a pixel of a one-band image is that of the image with its band written out three times, as numpy broadcasting repeats it |
| `RiskImage.SubImage` | risk_tool.py:72-86 | a block keeps every band and is r1 - r0 rows of c1 - c0 samples; its sample (i, j) is the image's sample (r0 + i, c0 + j) |
| `RiskImage.CalculateRisk` | risk_tool.py:77-81 | a chunk's labels form a grid of the chunk's height and width; each cell is the nearest-first label of its pixel, with the band axis dropped |
| `RiskImage.ChunkIsCrop` | risk_tool.py:77-81 | classifying a chunk gives the same rectangle as cropping the classification of the whole image |
| `RiskImage.RowBandIsCrop` | risk_tool.py:84-86 | `RowBand`, the classified blocks of one row band joined left to right, is that band of the whole-image classification |
| `RiskImage.AssembleIsCrop` | risk_tool.py:84-86 | `Assemble`, the row bands stacked top to bottom, is the whole-image classification from the first band's top row down |
| `RiskImage.ChunkInvariance` | risk_tool.py:67-72 | for any chunk lengths, joining the classified chunks gives the classification of the whole image |
| `RiskImage.ToCell` | risk_tool.py:88 | a cell is masked exactly when its label is "no data"; a level below 256 is stored as that byte |
| `RiskImage.MaskInvalid` | risk_tool.py:88 | the masked grid has the labels' shape; a cell is masked exactly when its label is "no data", and a level below 256 is stored as that byte |
| `RiskImage.RiskFromImage` | risk_tool.py:63-88 | fails, with the band count, exactly when the bands do not broadcast against three channels; otherwise gives a height by width grid where a cell is masked iff its pixel is nearest "no data", and holds that pixel's level 1 to 10 otherwise |
| `RiskImage.RiskMapUnique` | risk_tool.py:63-88 | the grid described by `RiskFromImage`'s contract is determined by the image |
| `RiskImage.AlphaIgnored` | risk_tool.py:64 | two images with the same first three bands classify identically, whatever their alpha or further bands |
| `RiskImage.TransparentIsLevelTen` | risk_tool.py:63-88 | an all-zero four-band (transparent RGBA) image classifies every pixel as level 10 |
| `RiskImage.RiskFromImageMaskingAlpha` | risk_tool.py:63-88 | fails, with the band count, exactly when the bands do not broadcast; otherwise a height by width grid where a cell is masked iff its pixel is fully transparent or nearest "no data", and holds that pixel's level 1 to 10 otherwise |
| `RiskImage.MaskingAlphaAgrees` | risk_tool.py:63-88 | the corrected classification succeeds exactly when the one as written does, and differs from it only at transparent pixels, which it masks |
| `RiskImage.TransparentIsMasked` | risk_tool.py:63-88 | with transparency masked, an all-zero four-band image is fully masked |
| `TilePath.Decimal` | map_download.py:93 | the rendering of an index is a non-empty string of decimal digits with no leading zero, except "0" itself |
| `TilePath.DecimalRoundTrip` | map_download.py:93 | the decimal rendering of a tile index parses back to that index |
| `TilePath.TileUrlPathRoundTrip` | map_download.py:93 | `TileUrlPath`, the request path `/tile/{zoom}/{y}/{x}` parses back to the zoom and tile, with the row before the column |
| `TilePath.TileUrlInjective` | map_download.py:93 | under `TileUrl`, the base address followed by the request path, different tiles of one layer and zoom get different request addresses |
| `TileGrid.Requests` | map_download.py:92-96 | there are nx * ny requests |
| `TileGrid.RequestsOrder` | map_download.py:92-96 | request k is for a tile inside the grid whose x-major position is k |
| `TileGrid.RequestAt` | map_download.py:92-96 | the request for tile (x, y) is at position x * ny + y |
| `TileGrid.SlotIndexInjective` | map_download.py:94-95 | different tiles of the grid have different positions in the request order |
| `TileGrid.Submit` | map_download.py:91-96 | one download per request, in request order, each for that request's address |
| `TileGrid.Blank` | map_download.py:88-90 | the new canvas has the given size and every pixel is transparent |
| `TileGrid.Paste` | map_download.py:103 | the canvas keeps its size; a pixel covered by the tile shows the tile's pixel at the offset position, and every other pixel is kept |
| `TileGrid.PasteTile` | map_download.py:102-103 | a missing tile leaves the canvas unchanged; a tile that fits its slot changes no pixel outside that slot |
| `TileGrid.SlotInCanvas` | map_download.py:88-90 | the paste rectangle of every tile of the grid lies inside the canvas |
| `TileGrid.SlotsDisjoint` | map_download.py:103 | paste rectangles of different tiles share no pixel; the one holding pixel (i, j) belongs to tile (j / ts, i / ts) |
| `TileGrid.PasteTileInSlot` | map_download.py:103 | inside its rectangle, a fitting tile shows its own pixel where it has one and leaves the canvas elsewhere |
| `TileGrid.Layout` | map_download.py:88-90 | after any number of pastes the canvas is still ts * ny rows of ts * nx pixels |
| `TileGrid.LayoutPixel` | map_download.py:98-103 | after k pastes of fitting tiles, a pixel shows its slot's tile if that slot is among the first k, and is transparent otherwise |
| `TileGrid.Fetched` | map_download.py:92-101 | one result per request, in request order; the k-th is what the download of request k's address returned |
| `TileGrid.FetchedAt` | map_download.py:92-101 | the tile consumed at position x * ny + y is the one fetched from tile (x, y)'s address |
| `TileGrid.LayoutStep` | map_download.py:98-103 | the paste for tile (x, y) is step x * ny + y of the layout |
| `TileGrid.LayoutComplete` | map_download.py:88-103 | with tiles that fit, every pixel of the finished canvas is the pixel at offset (i % ts, j % ts) of the tile fetched for slot (j / ts, i / ts), or transparent where that tile is missing |
| `TileGrid.StitchStep` | map_download.py:100-103 | one iteration pops the front download, records its address and pastes its tile if present; the loop state moves from k to k + 1 consumed downloads |
| `TileGrid.StitchColumn` | map_download.py:99-103 | the inner loop for column x consumes exactly the downloads of that column, in order |
| `TileGrid.Stitch` | map_download.py:88-103 | the download list ends empty; the k-th download taken is the k-th request; the canvas is the layout of all tiles in request order, of size ts * nx by ts * ny, and is stitched pixel by pixel when every tile fits its slot |

## Left out

- HTTP fetching, the thread pool and the session (map_download.py:56-63, 91) are not modelled. A download is the `fetch` parameter. `None` stands for a non-200 answer. Decoding the image bytes is not modelled.
- The layer metadata request and its JSON fields (map_download.py:70-80) are not modelled. `nx`, `ny`, `tile_size` and the zoom level are parameters.
- The floating-point tile-count computation (map_download.py:83-84) is left out. `nx` and `ny` are given naturals.
- The world-file arithmetic and all file output (map_download.py:105-122) are left out; they are float formatting and I/O.
- The PIL image modes are left out. A tile is a grid of RGBA pixels. Mode conversion of palette or RGB tiles on paste is not modelled.
- TileGrid.Stitch: a download that raises is not modelled, and either of two cases ends the run. An exception in the worker, such as a connection error from `session.get` (map_download.py:60) or a header `Image.open` cannot read (map_download.py:62), is re-raised by `future.result()` at map_download.py:101. Image data that fails to decode only when it is loaded raises from `stitched.paste` itself at map_download.py:103, in the main loop, because `Image.open` is lazy. The model covers only downloads that return a tile, which pastes without error, or `None`.
- TileGrid.Stitch: the pixel-by-pixel description of the finished canvas is proved only for tiles no larger than `tile_size` (`AllFit`). A larger tile spills into the next slot, where a later paste may overwrite it. For that case the model states only that the canvas equals the fold of pastes in request order.
- The float arithmetic of the distance is left out: the division by 255 and the square root (risk_tool.py:48, 64, 78-80). Only their monotonicity is used. Rounding ties that floats could create or break are not modelled.
- The value numpy stores under a masked cell is not modelled. Such a cell is `Masked`, without a byte.
- Dask scheduling (risk_tool.py:72, 84-88) is left out. The model assembles the chunks in row-major order. That order is irrelevant, by `RiskImage.ChunkInvariance`.
- Grids.Chunks: for an axis of length 0 the model makes no chunks, while `da.from_array` (risk_tool.py:72) makes one empty block. The computed risk map is empty in both cases.
- Classifier.RiskFromColour takes a byte triple. `risk_from_color` accepts any float triple; inputs that are not byte colours divided by 255 are not modelled.
- `to_rgb` accepts many other colour forms. Only the `#RRGGBB` form that the palette uses is modelled (`Colour.ParseHex`).
- Shapefile loading, rasterio reading and masking, geocoding and plotting (risk_tool.py:35-43, 52-60, 91-165) are library wrappers and are left out.
- The colour-bar helper (risk_tool.py:29-43) is left out.
- risk_extraction.py is not part of this model. It is file walking, library statistics and CSV output.

## Findings

| source | as written | input that shows it | evidently intended | confidence | as-written member | corrected member |
|---|---|---|---|---|---|---|
| risk_tool.py:63-88 | `risk_from_image` drops the alpha band (`image[:3]`) before classifying. A transparent pixel RGBA(0, 0, 0, 0) is therefore classified as black. Black is nearest the level-10 colour: squared distance 47841, against 96123 for the grey "no data" colour. Gaps that missing tiles leave in the stitched canvas (map_download.py:88-90, 102) come out as the highest risk, not masked. | any four-band image whose samples are all zero, for example one transparent pixel | fully transparent pixels come out masked, like "no data" | not executed | `RiskImage.TransparentIsLevelTen` (with `Classifier.BlackIsLevelTen`) | `RiskImage.RiskFromImageMaskingAlpha`, with `RiskImage.TransparentIsMasked` |
