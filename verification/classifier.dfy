/** Nearest-colour classification of one colour against the risk palette:
    the palette entry at minimum Euclidean distance, the first such entry on
    a tie, exactly as numpy's argmin picks it. */
module Classifier {
  import opened Colour
  import opened Palette

  /** k is what argmin returns for ds: a position of a minimum, and the
      first such position. */
  ghost predicate IsArgMin(ds: seq<real>, k: int) {
    && 0 <= k < |ds|
    && (forall j :: 0 <= j < |ds| ==> ds[k] <= ds[j])
    && (forall j :: 0 <= j < k ==> ds[k] < ds[j])
  }

  /** Left-to-right scan keeping the first minimum, as argmin does. */
  function ArgMin(ds: seq<real>): (k: nat)
    requires |ds| > 0
    ensures IsArgMin(ds, k)
    decreases |ds|
  {
    if |ds| == 1 then 0
    else
      var k := ArgMin(ds[..|ds| - 1]);
      if ds[|ds| - 1] < ds[k] then |ds| - 1 else k
  }

  /** There is only one first minimum. */
  lemma ArgMinUnique(ds: seq<real>, k1: int, k2: int)
    requires IsArgMin(ds, k1) && IsArgMin(ds, k2)
    ensures k1 == k2
  {
    var d1, d2 := ds[k1], ds[k2];
    assert k1 < k2 ==> d2 < d1;
    assert k2 < k1 ==> d1 < d2;
  }

  /** Applying a strictly increasing map to non-negative distances, such as
      taking the square root or dividing every channel by 255, does not move
      the argmin. */
  lemma ArgMinMonotone(ds: seq<real>, f: real -> real)
    requires |ds| > 0
    requires forall i :: 0 <= i < |ds| ==> ds[i] >= 0.0
    requires forall a, b :: 0.0 <= a < b ==> f(a) < f(b)
    ensures ArgMin(seq(|ds|, i requires 0 <= i < |ds| => f(ds[i]))) == ArgMin(ds)
  {
    var es := seq(|ds|, i requires 0 <= i < |ds| => f(ds[i]));
    var k := ArgMin(ds);
    forall j | 0 <= j < |ds|
      ensures es[k] <= es[j]
      ensures j < k ==> es[k] < es[j]
    {
      if ds[k] < ds[j] {
        assert f(ds[k]) < f(ds[j]);
      }
    }
    assert IsArgMin(es, k);
    ArgMinUnique(es, k, ArgMin(es));
  }

  /** Distance from c to every palette entry, in palette order. */
  function Distances(p: seq<Entry>, c: Rgb): (ds: seq<real>)
    ensures |ds| == |p|
    ensures forall i :: 0 <= i < |p| ==> ds[i] >= 0.0 && (ds[i] == 0.0 <==> p[i].colour == c)
  {
    seq(|p|, i requires 0 <= i < |p| => SqDist(c, p[i].colour) as real)
  }

  /** Position in the palette of the entry a colour is classified as. */
  function NearestIndex(c: Rgb): (k: nat)
    ensures k < |RiskColours|
    ensures IsArgMin(Distances(RiskColours, c), k)
  {
    ArgMin(Distances(RiskColours, c))
  }

  /** Position of a label in the palette. */
  function KeyIndex(l: Label): nat {
    match l
    case NoData => 0
    case Level(n) => n
  }

  /** l is the key of the palette entry nearest to c, the earliest one among
      equally near entries. */
  ghost predicate IsNearestKey(c: Rgb, l: Label) {
    && KeyIndex(l) < |RiskColours|
    && RiskColours[KeyIndex(l)].key == l
    && IsArgMin(Distances(RiskColours, c), KeyIndex(l))
  }

  /** The risk label of one colour: "no data" or a level 1 to 10, the key of
      the nearest palette entry, the first one on a tie. */
  function RiskFromColour(c: Rgb): (l: Label)
    ensures l == NoData || (l.Level? && 1 <= l.n <= 10)
    ensures IsNearestKey(c, l)
  {
    var k := NearestIndex(c);
    PaletteShape();
    assert KeyIndex(RiskColours[k].key) == k;
    RiskColours[k].key
  }

  /** The classification is the only label meeting the nearest-first rule. */
  lemma RiskFromColourUnique(c: Rgb, l: Label)
    ensures l == RiskFromColour(c) <==> IsNearestKey(c, l)
  {
    if IsNearestKey(c, l) {
      ArgMinUnique(Distances(RiskColours, c), KeyIndex(l), KeyIndex(RiskFromColour(c)));
    }
  }

  /** A colour that is exactly a palette colour is classified as that
      entry's key. */
  lemma ExactMatch(c: Rgb, i: nat)
    requires i < |RiskColours| && c == RiskColours[i].colour
    ensures RiskFromColour(c) == RiskColours[i].key
  {
    var ds := Distances(RiskColours, c);
    PaletteShape();
    forall j | 0 <= j < |ds|
      ensures ds[i] <= ds[j]
      ensures j < i ==> ds[i] < ds[j]
    {
      if j < i {
        assert RiskColours[j].colour != c;
      }
    }
    ArgMinUnique(ds, i, NearestIndex(c));
  }

  /** Of two equally near entries the later one is never the answer, and
      when they are nearest of all the answer is no later than the earlier. */
  lemma TieBreak(c: Rgb, i: nat, j: nat)
    requires i < j < |RiskColours|
    requires SqDist(c, RiskColours[i].colour) == SqDist(c, RiskColours[j].colour)
    ensures RiskFromColour(c) != RiskColours[j].key
    ensures (forall m :: 0 <= m < |RiskColours| ==>
               SqDist(c, RiskColours[i].colour) <= SqDist(c, RiskColours[m].colour))
            ==> KeyIndex(RiskFromColour(c)) <= i
  {
    var ds := Distances(RiskColours, c);
    var k := NearestIndex(c);
    PaletteShape();
    assert KeyIndex(RiskColours[k].key) == k && KeyIndex(RiskColours[j].key) == j;
    var dk, di := ds[k], ds[i];
    assert k == j ==> dk < di;
    assert dk <= di;
  }

  /** The classification does not depend on which strictly increasing
      function of the squared distance is minimised; in particular the
      Euclidean norm of colours scaled to [0, 1] picks the same entry. */
  lemma RiskFromColourMonotone(c: Rgb, f: real -> real)
    requires forall a, b :: 0.0 <= a < b ==> f(a) < f(b)
    ensures var ds := Distances(RiskColours, c);
            RiskColours[ArgMin(seq(|ds|, i requires 0 <= i < |ds| => f(ds[i])))].key == RiskFromColour(c)
  {
    PaletteShape();
    ArgMinMonotone(Distances(RiskColours, c), f);
  }

  /** Black, the colour of a fully transparent pixel once its alpha is
      dropped, is nearest to the level-10 entry, not to "no data". */
  lemma BlackIsLevelTen()
    ensures RiskFromColour(Rgb(0, 0, 0)) == Level(10)
  {
    var c := Rgb(0, 0, 0);
    var ds := Distances(RiskColours, c);
    PaletteShape();
    assert ds[10] == 47841.0;
    assert IsArgMin(ds, 10);
    RiskFromColourUnique(c, Level(10));
  }
}
