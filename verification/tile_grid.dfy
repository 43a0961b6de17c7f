/** The stitching of one risk layer: the nx * ny tile requests in x-major
    order, their results consumed first-in first-out in the same order, and
    each tile pasted into its own slot of a tile_size * nx by
    tile_size * ny canvas. */
module TileGrid {
  import opened Wrappers
  import opened Colour
  import opened Grids
  import opened TilePath

  /** One canvas pixel with an alpha channel. */
  datatype Rgba = Rgba(r: byte, g: byte, b: byte, a: byte)

  /** The pixel a new RGBA canvas starts with: black, fully transparent. */
  const Transparent: Rgba := Rgba(0, 0, 0, 0)

  /** A decoded tile image, as rows of pixels. */
  type Tile = Grid<Rgba>

  /** A submitted download: the address asked for and what came back (None
      when the server did not answer with success). */
  datatype Future = Future(url: string, result: Option<Tile>)

  /** The tile requests in submission order: x is the outer index, y the
      inner one. */
  function Requests(nx: nat, ny: nat): (rs: seq<TileRef>)
    ensures |rs| == Count(nx, ny)
  {
    if nx == 0 then []
    else Requests(nx - 1, ny) + seq(ny, y requires 0 <= y < ny => TileRef(nx - 1, y))
  }

  /** The number of tiles in a grid nx wide and ny high. */
  function Count(nx: nat, ny: nat): nat {
    nx * ny
  }

  /** The extent in pixels of n tiles of side ts laid side by side. */
  function Span(n: nat, ts: nat): nat {
    ts * n
  }

  /** Position of a tile in the submission order. */
  function SlotIndex(t: TileRef, ny: nat): nat {
    t.x * ny + t.y
  }

  /** Different tiles of the grid have different positions. */
  lemma SlotIndexInjective(t1: TileRef, t2: TileRef, ny: nat)
    requires t1.y < ny && t2.y < ny
    requires SlotIndex(t1, ny) == SlotIndex(t2, ny)
    ensures t1 == t2
  {
    DivUnique(SlotIndex(t1, ny), ny, t1.x, t1.y);
    DivUnique(SlotIndex(t2, ny), ny, t2.x, t2.y);
  }

  /** The k-th request is for the tile at position k: every request is in the
      grid, and its position in the order is k. */
  lemma {:induction false} RequestsOrder(nx: nat, ny: nat)
    ensures forall k :: 0 <= k < |Requests(nx, ny)| ==>
      var t := Requests(nx, ny)[k];
      t.x < nx && t.y < ny && SlotIndex(t, ny) == k
  {
    if nx > 0 {
      RequestsOrder(nx - 1, ny);
      var rs := Requests(nx, ny);
      forall k | (nx - 1) * ny <= k < |rs|
        ensures rs[k] == TileRef(nx - 1, k - (nx - 1) * ny)
      {
      }
    }
  }

  /** The request for the tile at (x, y) is at position x * ny + y. */
  lemma RequestAt(nx: nat, ny: nat, x: nat, y: nat)
    requires x < nx && y < ny
    ensures x * ny + y < |Requests(nx, ny)|
    ensures Requests(nx, ny)[x * ny + y] == TileRef(x, y)
  {
    assert x * ny + y < (x + 1) * ny <= Count(nx, ny);
    RequestsOrder(nx, ny);
    SlotIndexInjective(Requests(nx, ny)[x * ny + y], TileRef(x, y), ny);
  }

  /** Downloads submitted for every request, in request order. */
  function Submit(base: string, zoom: nat, nx: nat, ny: nat, fetch: string -> Option<Tile>): (fs: seq<Future>)
    ensures |fs| == Count(nx, ny)
    ensures forall k :: 0 <= k < |fs| ==>
      fs[k].url == TileUrl(base, zoom, Requests(nx, ny)[k]) && fs[k].result == fetch(fs[k].url)
  {
    var rs := Requests(nx, ny);
    seq(|rs|, k requires 0 <= k < |rs| =>
      var url := TileUrl(base, zoom, rs[k]); Future(url, fetch(url)))
  }

  /** A new canvas of the given width and height, every pixel transparent. */
  function Blank(width: nat, height: nat): (g: Grid<Rgba>)
    ensures IsRect(g, height, width)
    ensures forall i, j :: 0 <= i < height && 0 <= j < width ==> g[i][j] == Transparent
  {
    seq(height, i => seq(width, j => Transparent))
  }

  /** Pastes a tile with its top-left corner at column left, row upper; the
      part of the tile that falls outside the canvas is cut off. */
  function Paste(canvas: Grid<Rgba>, w: nat, tile: Tile, left: nat, upper: nat): (g: Grid<Rgba>)
    requires IsRect(canvas, |canvas|, w)
    ensures IsRect(g, |canvas|, w)
    ensures forall i, j :: 0 <= i < |canvas| && 0 <= j < w ==>
      g[i][j] == if upper <= i < upper + |tile| && left <= j < left + |tile[i - upper]|
                 then tile[i - upper][j - left] else canvas[i][j]
  {
    seq(|canvas|, i requires 0 <= i < |canvas| =>
      seq(w, j requires 0 <= j < w =>
        if upper <= i < upper + |tile| && left <= j < left + |tile[i - upper]|
        then tile[i - upper][j - left]
        else canvas[i][j]))
  }

  /** The top-left corner of the slot of tile t: (t.x * ts, t.y * ts). */
  function SlotOrigin(t: TileRef, ts: nat): (nat, nat) {
    (t.x * ts, t.y * ts)
  }

  /** The slot of t, [t.x * ts, t.x * ts + ts) by [t.y * ts, t.y * ts + ts),
      holds pixel (row i, column j). */
  predicate InSlot(t: TileRef, ts: nat, i: nat, j: nat) {
    t.x * ts <= j < t.x * ts + ts && t.y * ts <= i < t.y * ts + ts
  }

  /** A tile no larger than its slot. */
  ghost predicate Fits(tile: Option<Tile>, ts: nat) {
    tile.Some? ==> |tile.value| <= ts && forall i :: 0 <= i < |tile.value| ==> |tile.value[i]| <= ts
  }

  /** The loop body: a present tile is pasted at its slot, a missing one is
      skipped. */
  function PasteTile(canvas: Grid<Rgba>, w: nat, tile: Option<Tile>, t: TileRef, ts: nat): (g: Grid<Rgba>)
    requires IsRect(canvas, |canvas|, w)
    ensures IsRect(g, |canvas|, w)
    ensures tile.None? ==> g == canvas
    ensures Fits(tile, ts) ==> forall i, j :: 0 <= i < |canvas| && 0 <= j < w && !InSlot(t, ts, i, j) ==>
      g[i][j] == canvas[i][j]
  {
    match tile
    case None => canvas
    case Some(im) => Paste(canvas, w, im, SlotOrigin(t, ts).0, SlotOrigin(t, ts).1)
  }

  /** Along one axis, position p lies in block b of length ts exactly when
      b is p / ts. */
  lemma InBlock(p: nat, b: nat, ts: nat)
    requires ts > 0
    ensures b * ts <= p < b * ts + ts <==> p / ts == b
  {
    if b * ts <= p < b * ts + ts {
      DivUnique(p, ts, b, p - b * ts);
    } else {
      var q := p / ts;
      DivUnique(p, ts, q, p % ts);
      assert q * ts <= p < q * ts + ts;
    }
  }

  /** The slot of a tile of the grid lies inside the canvas. */
  lemma SlotInCanvas(t: TileRef, nx: nat, ny: nat, ts: nat)
    requires t.x < nx && t.y < ny
    ensures t.x * ts + ts <= Span(nx, ts) && t.y * ts + ts <= Span(ny, ts)
  {
    MulMono(t.x + 1, nx, ts);
    MulMono(t.y + 1, ny, ts);
  }

  /** Scaling by ts keeps the order of block counts. */
  lemma MulMono(a: nat, b: nat, ts: nat)
    requires a <= b
    ensures a * ts <= ts * b && a * ts == (a - 1) * ts + ts
  {
  }

  /** Slots of different tiles share no pixel; the slot holding pixel
      (i, j) is that of tile (j / ts, i / ts). */
  lemma SlotsDisjoint(t1: TileRef, t2: TileRef, ts: nat, i: nat, j: nat)
    requires ts > 0
    requires InSlot(t1, ts, i, j) && InSlot(t2, ts, i, j)
    ensures t1 == t2 == TileRef(j / ts, i / ts)
  {
    InBlock(j, t1.x, ts);
    InBlock(i, t1.y, ts);
    InBlock(j, t2.x, ts);
    InBlock(i, t2.y, ts);
  }

  /** The pixel of a (possibly missing) tile at row i, column j of its slot;
      transparent where there is no tile or the tile is too small. */
  function TilePixel(tile: Option<Tile>, i: nat, j: nat): Rgba {
    if tile.Some? && i < |tile.value| && j < |tile.value[i]| then tile.value[i][j] else Transparent
  }

  /** The canvas after the first k iterations of the paste loop. */
  function Layout(nx: nat, ny: nat, ts: nat, tiles: seq<Option<Tile>>, k: nat): (g: Grid<Rgba>)
    requires |tiles| == Count(nx, ny) && k <= Count(nx, ny)
    ensures IsRect(g, Span(ny, ts), Span(nx, ts))
  {
    if k == 0 then Blank(Span(nx, ts), Span(ny, ts))
    else PasteTile(Layout(nx, ny, ts, tiles, k - 1), Span(nx, ts), tiles[k - 1], Requests(nx, ny)[k - 1], ts)
  }

  /** Every fetched tile fits its slot. */
  ghost predicate AllFit(tiles: seq<Option<Tile>>, ts: nat) {
    forall k :: 0 <= k < |tiles| ==> Fits(tiles[k], ts)
  }

  /** Every canvas pixel lies in the slot of tile (j / ts, i / ts), a tile
      of the grid, at offset (i % ts, j % ts) within it. */
  lemma PixelSlot(nx: nat, ny: nat, ts: nat, i: nat, j: nat)
    requires i < Span(ny, ts) && j < Span(nx, ts)
    ensures ts > 0 && j / ts < nx && i / ts < ny
    ensures InSlot(TileRef(j / ts, i / ts), ts, i, j)
    ensures i % ts == i - (i / ts) * ts && j % ts == j - (j / ts) * ts
  {
    assert ts > 0;
    var x, y := j / ts, i / ts;
    InBlock(j, x, ts);
    InBlock(i, y, ts);
    assert x >= nx ==> x * ts >= nx * ts;
    assert y >= ny ==> y * ts >= ny * ts;
  }

  /** Inside the slot it is pasted at, a tile that fits shows its own pixel
      where it has one and leaves the canvas as it was elsewhere. */
  lemma PasteTileInSlot(canvas: Grid<Rgba>, w: nat, tile: Option<Tile>, t: TileRef, ts: nat, i: nat, j: nat)
    requires IsRect(canvas, |canvas|, w) && i < |canvas| && j < w
    requires Fits(tile, ts) && InSlot(t, ts, i, j)
    ensures var g := PasteTile(canvas, w, tile, t, ts);
      var p := TilePixel(tile, i - t.y * ts, j - t.x * ts);
      g[i][j] == if tile.Some? && i - t.y * ts < |tile.value| && j - t.x * ts < |tile.value[i - t.y * ts]|
                 then p else canvas[i][j]
  {
    if tile.Some? {
      var left, upper := t.x * ts, t.y * ts;
      assert PasteTile(canvas, w, tile, t, ts) == Paste(canvas, w, tile.value, left, upper);
      assert upper <= i && left <= j;
    }
  }

  /** After k pastes, a pixel shows its slot's tile if that slot is among the
      first k in the order, and is still transparent otherwise. */
  lemma {:induction false} LayoutPixel(nx: nat, ny: nat, ts: nat, tiles: seq<Option<Tile>>, k: nat, i: nat, j: nat)
    requires |tiles| == Count(nx, ny) && k <= Count(nx, ny) && AllFit(tiles, ts)
    requires i < Span(ny, ts) && j < Span(nx, ts)
    ensures ts > 0 && j / ts < nx && i / ts < ny
    ensures var s := SlotIndex(TileRef(j / ts, i / ts), ny);
      Layout(nx, ny, ts, tiles, k)[i][j] ==
        if s < k then TilePixel(tiles[s], i % ts, j % ts) else Transparent
  {
    PixelSlot(nx, ny, ts, i, j);
    var t := TileRef(j / ts, i / ts);
    RequestAt(nx, ny, t.x, t.y);
    var s := SlotIndex(t, ny);
    if k > 0 {
      LayoutPixel(nx, ny, ts, tiles, k - 1, i, j);
      var u := Requests(nx, ny)[k - 1];
      var prev := Layout(nx, ny, ts, tiles, k - 1);
      assert Fits(tiles[k - 1], ts);
      RequestsOrder(nx, ny);
      if u == t {
        PasteTileInSlot(prev, Span(nx, ts), tiles[k - 1], t, ts, i, j);
      } else {
        if InSlot(u, ts, i, j) {
          SlotsDisjoint(u, t, ts, i, j);
        }
        if s == k - 1 {
          SlotIndexInjective(u, t, ny);
        }
      }
    }
  }

  /** The tile fetched for each request, in request order. */
  function Fetched(base: string, zoom: nat, nx: nat, ny: nat, fetch: string -> Option<Tile>): (tiles: seq<Option<Tile>>)
    ensures |tiles| == Count(nx, ny)
    ensures forall k :: 0 <= k < |tiles| ==> tiles[k] == fetch(TileUrl(base, zoom, Requests(nx, ny)[k]))
  {
    var fs := Submit(base, zoom, nx, ny, fetch);
    seq(|fs|, k requires 0 <= k < |fs| => fs[k].result)
  }

  /** The tile fetched for (x, y) sits at position x * ny + y. */
  lemma FetchedAt(base: string, zoom: nat, nx: nat, ny: nat, fetch: string -> Option<Tile>, x: nat, y: nat)
    requires x < nx && y < ny
    ensures x * ny + y < Count(nx, ny)
    ensures Fetched(base, zoom, nx, ny, fetch)[x * ny + y] == fetch(TileUrl(base, zoom, TileRef(x, y)))
  {
    RequestAt(nx, ny, x, y);
    var fs := Submit(base, zoom, nx, ny, fetch);
    assert fs[x * ny + y].url == TileUrl(base, zoom, TileRef(x, y));
  }

  /** One iteration of the paste loop, at tile (x, y), extends the layout by
      the k-th tile. */
  lemma LayoutStep(nx: nat, ny: nat, ts: nat, tiles: seq<Option<Tile>>, x: nat, y: nat, k: nat)
    requires |tiles| == Count(nx, ny) && x < nx && y < ny && k == x * ny + y
    ensures k < Count(nx, ny)
    ensures Layout(nx, ny, ts, tiles, k + 1)
      == PasteTile(Layout(nx, ny, ts, tiles, k), Span(nx, ts), tiles[k], TileRef(x, y), ts)
  {
    RequestAt(nx, ny, x, y);
  }

  /** The tile fetched for the slot holding pixel (i, j) is the one at that
      slot's position in the request order. */
  lemma SlotFetched(base: string, zoom: nat, nx: nat, ny: nat, ts: nat, fetch: string -> Option<Tile>, i: nat, j: nat)
    requires i < Span(ny, ts) && j < Span(nx, ts)
    ensures ts > 0
    ensures var s := SlotIndex(TileRef(j / ts, i / ts), ny);
      s < Count(nx, ny) && Fetched(base, zoom, nx, ny, fetch)[s] == fetch(TileUrl(base, zoom, TileRef(j / ts, i / ts)))
  {
    PixelSlot(nx, ny, ts, i, j);
    FetchedAt(base, zoom, nx, ny, fetch, j / ts, i / ts);
  }

  /** One pixel of the finished layout, with tiles that fit, is the pixel
      of the tile requested for its slot. */
  lemma LayoutCompletePixel(base: string, zoom: nat, nx: nat, ny: nat, ts: nat, fetch: string -> Option<Tile>, i: nat, j: nat)
    requires AllFit(Fetched(base, zoom, nx, ny, fetch), ts)
    requires i < Span(ny, ts) && j < Span(nx, ts)
    ensures PixelStitched(Layout(nx, ny, ts, Fetched(base, zoom, nx, ny, fetch), Count(nx, ny)), base, zoom, ts, fetch, i, j)
  {
    SlotFetched(base, zoom, nx, ny, ts, fetch, i, j);
    LayoutPixel(nx, ny, ts, Fetched(base, zoom, nx, ny, fetch), Count(nx, ny), i, j);
  }

  /** Pixel (i, j) of the canvas is the pixel at offset (i % ts, j % ts) of
      the tile fetched for slot (j / ts, i / ts), transparent where that
      tile is missing or too small. */
  ghost predicate PixelStitched(canvas: Grid<Rgba>, base: string, zoom: nat, ts: nat,
                                fetch: string -> Option<Tile>, i: nat, j: nat)
  {
    && i < |canvas| && j < |canvas[i]| && ts > 0
    && canvas[i][j] == TilePixel(fetch(TileUrl(base, zoom, TileRef(j / ts, i / ts))), i % ts, j % ts)
  }

  /** A ts * nx by ts * ny canvas every pixel of which shows the tile
      fetched for its slot. */
  ghost predicate IsStitched(canvas: Grid<Rgba>, base: string, zoom: nat, nx: nat, ny: nat, ts: nat,
                             fetch: string -> Option<Tile>)
  {
    && IsRect(canvas, Span(ny, ts), Span(nx, ts))
    && forall i: nat, j: nat :: i < Span(ny, ts) && j < Span(nx, ts) ==> PixelStitched(canvas, base, zoom, ts, fetch, i, j)
  }

  /** The finished layout, with tiles that fit: every pixel shows the pixel
      of the tile requested for its slot. */
  lemma LayoutComplete(base: string, zoom: nat, nx: nat, ny: nat, ts: nat, fetch: string -> Option<Tile>)
    requires AllFit(Fetched(base, zoom, nx, ny, fetch), ts)
    ensures IsStitched(Layout(nx, ny, ts, Fetched(base, zoom, nx, ny, fetch), Count(nx, ny)), base, zoom, nx, ny, ts, fetch)
  {
    var g := Layout(nx, ny, ts, Fetched(base, zoom, nx, ny, fetch), Count(nx, ny));
    forall i: nat, j: nat | i < Span(ny, ts) && j < Span(nx, ts)
      ensures PixelStitched(g, base, zoom, ts, fetch, i, j)
    {
      LayoutCompletePixel(base, zoom, nx, ny, ts, fetch, i, j);
    }
  }

  /** The addresses of some downloads, in order. */
  function Urls(fs: seq<Future>): (us: seq<string>)
    ensures |us| == |fs|
    ensures forall k :: 0 <= k < |fs| ==> us[k] == fs[k].url
  {
    if fs == [] then [] else Urls(fs[..|fs| - 1]) + [fs[|fs| - 1].url]
  }

  /** The loop body's paste, written as the source writes it, is the layout
      step at tile (x, y). */
  lemma PasteIfPresent(canvas: Grid<Rgba>, w: nat, tile: Option<Tile>, x: nat, y: nat, ts: nat)
    requires IsRect(canvas, |canvas|, w)
    ensures (if tile.Some? then Paste(canvas, w, tile.value, x * ts, y * ts) else canvas)
      == PasteTile(canvas, w, tile, TileRef(x, y), ts)
  {
  }

  /** The state of the stitching loop after the first k of the downloads
      all (whose tiles are tiles) have been consumed: the queue holds the
      rest, their addresses were taken in order, and the canvas is the
      layout of the first k tiles. */
  ghost predicate Consumed(canvas: Grid<Rgba>, queue: seq<Future>, taken: seq<string>, nx: nat, ny: nat, ts: nat,
                           all: seq<Future>, tiles: seq<Option<Tile>>, k: nat)
  {
    && |all| == |tiles| == Count(nx, ny) && k <= Count(nx, ny)
    && (forall m :: 0 <= m < |all| ==> tiles[m] == all[m].result)
    && queue == all[k..] && taken == Urls(all[..k])
    && canvas == Layout(nx, ny, ts, tiles, k)
  }

  /** One iteration of the inner loop: the front download is taken off the
      queue, its address is recorded, and its tile (if any) is pasted at the
      slot of (x, y); that consumes download x * ny + y. */
  method StitchStep(canvas0: Grid<Rgba>, queue0: seq<Future>, taken0: seq<string>,
                    x: nat, y: nat, nx: nat, ny: nat, ts: nat, ghost k: nat, ghost all: seq<Future>, ghost tiles: seq<Option<Tile>>)
    returns (canvas: Grid<Rgba>, queue: seq<Future>, taken: seq<string>)
    requires x < nx && y < ny && k == x * ny + y
    requires Consumed(canvas0, queue0, taken0, nx, ny, ts, all, tiles, k)
    ensures Consumed(canvas, queue, taken, nx, ny, ts, all, tiles, k + 1)
  {
    LayoutStep(nx, ny, ts, tiles, x, y, k);
    var w, left, upper := Span(nx, ts), x * ts, y * ts;
    var future := queue0[0];
    assert future == all[k];
    assert all[..k + 1][..k] == all[..k];
    PasteIfPresent(canvas0, w, tiles[k], x, y, ts);
    queue := queue0[1..];
    taken := taken0 + [future.url];
    canvas := canvas0;
    if future.result.Some? {
      canvas := Paste(canvas, w, future.result.value, left, upper);
    }
  }

  /** The inner loop of the stitching, for column x of the grid: for each y
      in turn, takes the front download off the queue and pastes its tile
      (if any) at the slot of (x, y). */
  method StitchColumn(canvas0: Grid<Rgba>, queue0: seq<Future>, taken0: seq<string>,
                      x: nat, nx: nat, ny: nat, ts: nat, ghost all: seq<Future>, ghost tiles: seq<Option<Tile>>)
    returns (canvas: Grid<Rgba>, queue: seq<Future>, taken: seq<string>)
    requires x < nx
    requires Consumed(canvas0, queue0, taken0, nx, ny, ts, all, tiles, Count(x, ny))
    ensures Consumed(canvas, queue, taken, nx, ny, ts, all, tiles, Count(x + 1, ny))
  {
    ColumnBounds(x, nx, ny);
    canvas, queue, taken := canvas0, queue0, taken0;
    ghost var k := x * ny;
    var y: nat := 0;
    while y < ny
      invariant y <= ny && k == x * ny + y
      invariant Consumed(canvas, queue, taken, nx, ny, ts, all, tiles, k)
    {
      canvas, queue, taken := StitchStep(canvas, queue, taken, x, y, nx, ny, ts, k, all, tiles);
      y, k := y + 1, k + 1;
    }
  }

  /** Arithmetic of column x: its slots are x * ny .. (x + 1) * ny - 1. */
  lemma ColumnBounds(x: nat, nx: nat, ny: nat)
    requires x < nx
    ensures (x + 1) * ny == x * ny + ny <= Count(nx, ny)
  {
    assert (x + 1) * ny <= Count(nx, ny);
  }

  /** The per-layer stitching loop. Downloads are submitted for every tile
      in x-major order; the loop then walks the same order, takes the front
      download off the queue, and pastes its tile (if any) at the slot of
      (x, y). Returns the canvas, the emptied queue, and the addresses in
      the order they were taken off it. */
  method Stitch(base: string, zoom: nat, nx: nat, ny: nat, ts: nat, fetch: string -> Option<Tile>)
    returns (canvas: Grid<Rgba>, queue: seq<Future>, taken: seq<string>)
    ensures queue == []
    ensures |taken| == Count(nx, ny)
    ensures forall k :: 0 <= k < Count(nx, ny) ==> taken[k] == TileUrl(base, zoom, Requests(nx, ny)[k])
    ensures canvas == Layout(nx, ny, ts, Fetched(base, zoom, nx, ny, fetch), Count(nx, ny))
    ensures IsRect(canvas, Span(ny, ts), Span(nx, ts))
    ensures AllFit(Fetched(base, zoom, nx, ny, fetch), ts) ==> IsStitched(canvas, base, zoom, nx, ny, ts, fetch)
  {
    canvas := Blank(Span(nx, ts), Span(ny, ts));
    queue := Submit(base, zoom, nx, ny, fetch);
    taken := [];
    ghost var all := queue;
    ghost var tiles := Fetched(base, zoom, nx, ny, fetch);
    StitchStart(base, zoom, nx, ny, ts, fetch);
    var x := 0;
    while x < nx
      invariant x <= nx
      invariant Consumed(canvas, queue, taken, nx, ny, ts, all, tiles, Count(x, ny))
    {
      canvas, queue, taken := StitchColumn(canvas, queue, taken, x, nx, ny, ts, all, tiles);
      x := x + 1;
    }
    StitchDone(canvas, queue, taken, base, zoom, nx, ny, ts, fetch);
  }

  /** Before the loop: a blank canvas, every download queued, none taken. */
  lemma StitchStart(base: string, zoom: nat, nx: nat, ny: nat, ts: nat, fetch: string -> Option<Tile>)
    ensures Consumed(Blank(Span(nx, ts), Span(ny, ts)), Submit(base, zoom, nx, ny, fetch), [], nx, ny, ts,
                     Submit(base, zoom, nx, ny, fetch), Fetched(base, zoom, nx, ny, fetch), Count(0, ny))
  {
    var all := Submit(base, zoom, nx, ny, fetch);
    assert all[0..] == all && all[..0] == [];
  }

  /** Once every download is consumed the queue is empty, the addresses were
      taken in request order, and the canvas is the complete layout. */
  lemma StitchDone(canvas: Grid<Rgba>, queue: seq<Future>, taken: seq<string>,
                   base: string, zoom: nat, nx: nat, ny: nat, ts: nat, fetch: string -> Option<Tile>)
    requires Consumed(canvas, queue, taken, nx, ny, ts, Submit(base, zoom, nx, ny, fetch),
                      Fetched(base, zoom, nx, ny, fetch), Count(nx, ny))
    ensures queue == []
    ensures |taken| == Count(nx, ny)
    ensures forall k :: 0 <= k < Count(nx, ny) ==> taken[k] == TileUrl(base, zoom, Requests(nx, ny)[k])
    ensures canvas == Layout(nx, ny, ts, Fetched(base, zoom, nx, ny, fetch), Count(nx, ny))
    ensures IsRect(canvas, Span(ny, ts), Span(nx, ts))
    ensures AllFit(Fetched(base, zoom, nx, ny, fetch), ts) ==> IsStitched(canvas, base, zoom, nx, ny, ts, fetch)
  {
    var all := Submit(base, zoom, nx, ny, fetch);
    assert all[..Count(nx, ny)] == all;
    if AllFit(Fetched(base, zoom, nx, ny, fetch), ts) {
      LayoutComplete(base, zoom, nx, ny, ts, fetch);
    }
  }
}
