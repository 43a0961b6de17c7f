/** The request path of one map tile, "/tile/{zoom}/{y}/{x}": the row index
    comes before the column index. */
module TilePath {
  import opened Wrappers

  /** A tile position: column x (west to east) and row y (north to south). */
  datatype TileRef = TileRef(x: nat, y: nat)

  function DigitChar(d: nat): char
    requires d < 10
  {
    ('0' as int + d) as char
  }

  predicate IsDigit(ch: char) {
    '0' <= ch <= '9'
  }

  /** The decimal spelling of a natural number, as Python's str gives it. */
  function Decimal(n: nat): (s: string)
    ensures |s| > 0
    ensures forall i :: 0 <= i < |s| ==> IsDigit(s[i])
    ensures s[0] == '0' <==> n == 0
  {
    if n < 10 then [DigitChar(n)] else Decimal(n / 10) + [DigitChar(n % 10)]
  }

  /** The value of a string of decimal digits. */
  function DigitsValue(s: string): nat
    requires forall i :: 0 <= i < |s| ==> IsDigit(s[i])
  {
    if s == [] then 0
    else
      assert IsDigit(s[|s| - 1]);
      10 * DigitsValue(s[..|s| - 1]) + (s[|s| - 1] as int - '0' as int)
  }

  /** A non-empty string of decimal digits as a number; anything else is
      rejected. */
  function ParseDecimal(s: string): Option<nat> {
    if s != [] && forall i :: 0 <= i < |s| ==> IsDigit(s[i]) then Some(DigitsValue(s)) else None
  }

  lemma {:induction false} DecimalValue(n: nat)
    ensures DigitsValue(Decimal(n)) == n
  {
    if n >= 10 {
      var s := Decimal(n);
      assert s[..|s| - 1] == Decimal(n / 10);
      DecimalValue(n / 10);
    }
  }

  lemma DecimalRoundTrip(n: nat)
    ensures ParseDecimal(Decimal(n)) == Some(n)
  {
    DecimalValue(n);
  }

  /** The pieces of s between the '/' separators (Python's str.split("/")). */
  function Split(s: string): (parts: seq<string>)
    ensures |parts| >= 1
  {
    if s == [] then [[]]
    else
      var rest := Split(s[1..]);
      if s[0] == '/' then [[]] + rest else [[s[0]] + rest[0]] + rest[1..]
  }

  lemma {:induction false} SplitNoSeparator(a: string)
    requires '/' !in a
    ensures Split(a) == [a]
  {
    if a != [] {
      SplitNoSeparator(a[1..]);
      assert [a[0]] + a[1..] == a;
    }
  }

  lemma {:induction false} SplitAtSeparator(a: string, b: string)
    requires '/' !in a
    ensures Split(a + "/" + b) == [a] + Split(b)
  {
    if a == [] {
      assert a + "/" + b == "/" + b;
      assert ("/" + b)[1..] == b;
    } else {
      assert (a + "/" + b)[1..] == a[1..] + "/" + b;
      SplitAtSeparator(a[1..], b);
      assert [a[0]] + a[1..] == a;
    }
  }

  const Prefix: string := "/tile/"

  /** The path the tile at t is requested under, at the given zoom level. */
  function TileUrlPath(zoom: nat, t: TileRef): string {
    Prefix + Decimal(zoom) + "/" + Decimal(t.y) + "/" + Decimal(t.x)
  }

  /** The zoom level and tile a request path names: the first number is the
      zoom, the second the row y, the third the column x. */
  function ParseTileUrlPath(s: string): Option<(nat, TileRef)> {
    if |s| < |Prefix| || s[..|Prefix|] != Prefix then None
    else
      var parts := Split(s[|Prefix|..]);
      if |parts| != 3 then None
      else
        match (ParseDecimal(parts[0]), ParseDecimal(parts[1]), ParseDecimal(parts[2]))
        case (Some(z), Some(row), Some(col)) => Some((z, TileRef(col, row)))
        case _ => None
  }

  lemma DigitsHaveNoSeparator(s: string)
    requires forall i :: 0 <= i < |s| ==> IsDigit(s[i])
    ensures '/' !in s
  {
  }

  /** Parsing a request path gives back its zoom level and tile. */
  lemma TileUrlPathRoundTrip(zoom: nat, t: TileRef)
    ensures ParseTileUrlPath(TileUrlPath(zoom, t)) == Some((zoom, t))
  {
    var z, r, c := Decimal(zoom), Decimal(t.y), Decimal(t.x);
    var s := TileUrlPath(zoom, t);
    assert s == Prefix + (z + "/" + (r + "/" + c));
    assert s[|Prefix|..] == z + "/" + (r + "/" + c);
    DigitsHaveNoSeparator(z);
    DigitsHaveNoSeparator(r);
    DigitsHaveNoSeparator(c);
    SplitAtSeparator(z, r + "/" + c);
    SplitAtSeparator(r, c);
    SplitNoSeparator(c);
    DecimalRoundTrip(zoom);
    DecimalRoundTrip(t.y);
    DecimalRoundTrip(t.x);
  }

  /** The full request address of a tile under a service's base address. */
  function TileUrl(base: string, zoom: nat, t: TileRef): string {
    base + TileUrlPath(zoom, t)
  }

  /** Different tiles are requested under different addresses. */
  lemma TileUrlInjective(base: string, zoom: nat, t1: TileRef, t2: TileRef)
    requires TileUrl(base, zoom, t1) == TileUrl(base, zoom, t2)
    ensures t1 == t2
  {
    var u1, u2 := TileUrl(base, zoom, t1), TileUrl(base, zoom, t2);
    assert TileUrlPath(zoom, t1) == u1[|base|..] == u2[|base|..] == TileUrlPath(zoom, t2);
    TileUrlPathRoundTrip(zoom, t1);
    TileUrlPathRoundTrip(zoom, t2);
  }
}
