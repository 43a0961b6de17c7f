/** The fixed risk palette: a "no data" entry followed by the risk levels
    1 to 10, each with the colour the risk-map tile service draws it in. */
module Palette {
  import opened Wrappers
  import opened Colour

  /** A palette label: "no data" (a NaN key in the source) or a risk level. */
  datatype Label = NoData | Level(n: nat)

  /** One palette entry: its key (label) and its colour. */
  datatype Entry = Entry(key: Label, colour: Rgb)

  /** The palette as written in the source: labels with "#RRGGBB" colours. */
  const RiskColoursHtml: seq<(Label, string)> := [
    (NoData, "#B3B3B3"),
    (Level(1), "#EDFDC5"),
    (Level(2), "#EBFD88"),
    (Level(3), "#FFFE89"),
    (Level(4), "#FEF086"),
    (Level(5), "#FAD649"),
    (Level(6), "#F4AC3C"),
    (Level(7), "#F08833"),
    (Level(8), "#ED612B"),
    (Level(9), "#E23021"),
    (Level(10), "#D42C1F")
  ]

  predicate DistinctColours(p: seq<Entry>) {
    forall i, j :: 0 <= i < j < |p| ==> p[i].colour != p[j].colour
  }

  /** The palette with its colours decoded, in the source's order. */
  const RiskColours: seq<Entry> := [
    Entry(NoData, Rgb(0xB3, 0xB3, 0xB3)),
    Entry(Level(1), Rgb(0xED, 0xFD, 0xC5)),
    Entry(Level(2), Rgb(0xEB, 0xFD, 0x88)),
    Entry(Level(3), Rgb(0xFF, 0xFE, 0x89)),
    Entry(Level(4), Rgb(0xFE, 0xF0, 0x86)),
    Entry(Level(5), Rgb(0xFA, 0xD6, 0x49)),
    Entry(Level(6), Rgb(0xF4, 0xAC, 0x3C)),
    Entry(Level(7), Rgb(0xF0, 0x88, 0x33)),
    Entry(Level(8), Rgb(0xED, 0x61, 0x2B)),
    Entry(Level(9), Rgb(0xE2, 0x30, 0x21)),
    Entry(Level(10), Rgb(0xD4, 0x2C, 0x1F))
  ]

  /** The palette has eleven entries: "no data" first, then levels 1 to 10
      in order, no colour used twice. */
  lemma PaletteShape()
    ensures |RiskColours| == 11
    ensures RiskColours[0].key == NoData
    ensures forall i :: 1 <= i < |RiskColours| ==> RiskColours[i].key == Level(i)
    ensures DistinctColours(RiskColours)
  {
  }

  /** Every decoded entry is the decoding of the entry as written in
      hexadecimal, with the same key. */
  lemma PaletteMatchesHtml()
    ensures |RiskColours| == |RiskColoursHtml|
    ensures forall i :: 0 <= i < |RiskColours| ==>
      RiskColours[i].key == RiskColoursHtml[i].0 && ParseHex(RiskColoursHtml[i].1) == Some(RiskColours[i].colour)
  {
  }
}
