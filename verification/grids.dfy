/** Rectangular grids, the rectangles cut out of them, and the chunking of
    an axis into consecutive blocks of a fixed length. */
module Grids {

  /** A two-dimensional grid, a sequence of rows. */
  type Grid<T> = seq<seq<T>>

  function Min(a: nat, b: nat): nat { if a < b then a else b }

  function Max(a: nat, b: nat): nat { if a < b then b else a }

  /** g has h rows of w cells each. */
  ghost predicate IsRect<T>(g: Grid<T>, h: nat, w: nat) {
    |g| == h && forall i :: 0 <= i < |g| ==> |g[i]| == w
  }

  /** Rows side by side: row i of the result is row i of a then of b. */
  function HJoin<T>(a: Grid<T>, b: Grid<T>): (g: Grid<T>)
    requires |a| == |b|
    ensures |g| == |a|
    ensures forall i :: 0 <= i < |g| ==> g[i] == a[i] + b[i]
  {
    seq(|a|, i requires 0 <= i < |a| => a[i] + b[i])
  }

  /** The rectangle of rows r0..r1 and columns c0..c1 of g. */
  function Crop<T>(g: Grid<T>, w: nat, r0: nat, r1: nat, c0: nat, c1: nat): (c: Grid<T>)
    requires IsRect(g, |g|, w)
    requires r0 <= r1 <= |g| && c0 <= c1 <= w
    ensures IsRect(c, r1 - r0, c1 - c0)
    ensures forall i, j :: 0 <= i < r1 - r0 && 0 <= j < c1 - c0 ==> c[i][j] == g[r0 + i][c0 + j]
  {
    seq(r1 - r0, i requires 0 <= i < r1 - r0 => g[r0 + i][c0..c1])
  }

  /** Two horizontally adjacent rectangles joined make the wider one. */
  lemma CropHJoin<T>(g: Grid<T>, w: nat, r0: nat, r1: nat, c0: nat, e: nat, c1: nat)
    requires IsRect(g, |g|, w)
    requires r0 <= r1 <= |g| && c0 <= e <= c1 <= w
    ensures HJoin(Crop(g, w, r0, r1, c0, e), Crop(g, w, r0, r1, e, c1)) == Crop(g, w, r0, r1, c0, c1)
  {
    var a, b, c := Crop(g, w, r0, r1, c0, e), Crop(g, w, r0, r1, e, c1), Crop(g, w, r0, r1, c0, c1);
    forall i | 0 <= i < r1 - r0
      ensures a[i] + b[i] == c[i]
    {
      assert g[r0 + i][c0..e] + g[r0 + i][e..c1] == g[r0 + i][c0..c1];
    }
  }

  /** Two vertically adjacent rectangles stacked make the taller one. */
  lemma CropVJoin<T>(g: Grid<T>, w: nat, r0: nat, e: nat, r1: nat, c0: nat, c1: nat)
    requires IsRect(g, |g|, w)
    requires r0 <= e <= r1 <= |g| && c0 <= c1 <= w
    ensures Crop(g, w, r0, e, c0, c1) + Crop(g, w, e, r1, c0, c1) == Crop(g, w, r0, r1, c0, c1)
  {
    var a, b, c := Crop(g, w, r0, e, c0, c1), Crop(g, w, e, r1, c0, c1), Crop(g, w, r0, r1, c0, c1);
    forall i | 0 <= i < r1 - r0
      ensures (a + b)[i] == c[i]
    {
      if i < e - r0 {
        assert (a + b)[i] == a[i];
      } else {
        assert (a + b)[i] == b[i - (e - r0)];
      }
    }
  }

  /** The whole rectangle is the grid itself. */
  lemma CropWhole<T>(g: Grid<T>, w: nat)
    requires IsRect(g, |g|, w)
    ensures Crop(g, w, 0, |g|, 0, w) == g
  {
    var c := Crop(g, w, 0, |g|, 0, w);
    forall i | 0 <= i < |g|
      ensures c[i] == g[i]
    {
      assert g[i][0..w] == g[i];
    }
  }

  /** The chunk length along one axis of n cells: a twelfth of it, but at
      least one cell. */
  function ChunkSize(n: nat): (s: nat)
    ensures 1 <= s
    ensures n >= 12 ==> 12 * s <= n < 12 * (s + 1)
    ensures n < 12 ==> s == 1
  {
    Max(n / 12, 1)
  }

  /** The chunks [start, end) of the axis positions from..n, each of the
      given length except a shorter last one. */
  function ChunksFrom(from: nat, n: nat, size: nat): (cs: seq<(nat, nat)>)
    requires from <= n && size >= 1
    decreases n - from
  {
    if from == n then []
    else
      var e := Min(from + size, n);
      [(from, e)] + ChunksFrom(e, n, size)
  }

  /** The chunks of an axis of n cells: ceil(n / size) blocks that run from
      the first cell to the last without gap or overlap, each non-empty and
      at most size cells long. */
  function Chunks(n: nat, size: nat): (cs: seq<(nat, nat)>)
    requires size >= 1
    ensures |cs| == (n + size - 1) / size
    ensures |cs| > 0 ==> cs[0].0 == 0 && cs[|cs| - 1].1 == n
    ensures forall k :: 0 < k < |cs| ==> cs[k].0 == cs[k - 1].1
    ensures forall k :: 0 <= k < |cs| ==> cs[k].0 < cs[k].1 <= n && cs[k].1 <= cs[k].0 + size
  {
    ChunksBounded(0, n, size);
    ChunksContiguous(0, n, size);
    ChunksCount(0, n, size);
    ChunksFrom(0, n, size)
  }

  /** Chunks lie within the axis and do not run backwards. */
  ghost predicate ValidChunks(cs: seq<(nat, nat)>, n: nat) {
    forall k :: 0 <= k < |cs| ==> cs[k].0 <= cs[k].1 <= n
  }

  /** Every chunk is non-empty, no longer than size, and inside from..n. */
  lemma {:induction false} ChunksBounded(from: nat, n: nat, size: nat)
    requires from <= n && size >= 1
    ensures forall k :: 0 <= k < |ChunksFrom(from, n, size)| ==>
      var c := ChunksFrom(from, n, size)[k];
      from <= c.0 < c.1 <= n && c.1 <= c.0 + size
    decreases n - from
  {
    if from < n {
      var e := Min(from + size, n);
      ChunksBounded(e, n, size);
    }
  }

  /** The chunks are contiguous: the first starts at from, each begins where
      the previous one ends, the last ends at n. */
  lemma {:induction false} ChunksContiguous(from: nat, n: nat, size: nat)
    requires from <= n && size >= 1
    ensures var cs := ChunksFrom(from, n, size);
      && (|cs| > 0 ==> cs[0].0 == from && cs[|cs| - 1].1 == n)
      && (forall k :: 0 < k < |cs| ==> cs[k].0 == cs[k - 1].1)
    decreases n - from
  {
    if from < n {
      var e := Min(from + size, n);
      ChunksContiguous(e, n, size);
      var rest := ChunksFrom(e, n, size);
      if rest != [] {
        assert rest[0].0 == e;
      }
    }
  }

  /** There are ceil((n - from) / size) chunks. */
  lemma {:induction false} ChunksCount(from: nat, n: nat, size: nat)
    requires from <= n && size >= 1
    ensures |ChunksFrom(from, n, size)| == (n - from + size - 1) / size
    decreases n - from
  {
    if from < n {
      var e := Min(from + size, n);
      ChunksCount(e, n, size);
      if e == n {
        DivOne(n - from + size - 1, size);
      } else {
        DivStep(n - e + size - 1, size);
        assert n - from + size - 1 == (n - e + size - 1) + size;
      }
    }
  }

  /** The quotient is fixed by any decomposition x == q * d + r with a
      remainder below d. */
  lemma DivUnique(x: int, d: int, q: int, r: int)
    requires d > 0 && 0 <= r < d && x == q * d + r
    ensures x / d == q
  {
    var q', r' := x / d, x % d;
    assert (q - q') * d == r' - r;
    assert q - q' >= 1 ==> (q - q') * d >= d;
    assert q' - q >= 1 ==> (q' - q) * d >= d;
  }

  lemma DivOne(x: nat, d: nat)
    requires d > 0 && d <= x < 2 * d
    ensures x / d == 1
  {
    DivUnique(x, d, 1, x - d);
  }

  lemma DivStep(x: nat, d: nat)
    requires d > 0
    ensures (x + d) / d == x / d + 1
  {
    DivUnique(x + d, d, x / d + 1, x % d);
  }

  lemma ChunksValid(from: nat, n: nat, size: nat)
    requires from <= n && size >= 1
    ensures ValidChunks(ChunksFrom(from, n, size), n)
  {
    ChunksBounded(from, n, size);
  }

  /** Along an axis of at least twelve cells there are between 12 and 23
      chunks, not always 12; a shorter axis gets one chunk per cell. */
  lemma ChunkGrid(n: nat)
    ensures n < 12 ==> |Chunks(n, ChunkSize(n))| == n
    ensures n >= 12 ==> 12 <= |Chunks(n, ChunkSize(n))| <= 23
  {
    var s := ChunkSize(n);
    ChunksCount(0, n, s);
    if n >= 12 {
      assert n < 12 * s + 12 <= 13 * s + 11 <= 24 * s;
      DivBounds(n + s - 1, s, 12, 23);
    }
  }

  /** A quotient lies between the bounds its dividend is scaled between. */
  lemma DivBounds(x: nat, d: nat, lo: nat, hi: nat)
    requires d > 0 && lo * d <= x < (hi + 1) * d
    ensures lo <= x / d <= hi
  {
    var q := x / d;
    assert q * d <= x < q * d + d;
    if q < lo {
      MulLe(q + 1, lo, d);
    }
    if q > hi {
      MulLe(hi + 1, q, d);
    }
  }

  lemma MulLe(a: nat, b: nat, d: nat)
    requires a <= b
    ensures a * d <= b * d
  {
    assert b * d == a * d + (b - a) * d;
  }
}
