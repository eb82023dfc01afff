/** The data part of `make_donut` (dashboard_methods.py): the colour pair
    picked by name, the two two-slice rings (the value ring and the
    background ring) and the label drawn in the middle.

    The Altair marks, radii, fonts and sizes are not modelled. */
module Donut {
  import opened Dataset
  import opened Decimal

  /** `chart_color`: the colour of the chart's own topic and the colour of
      the unnamed rest, in the order the scale's range lists them. */
  datatype Palette = Palette(topic: string, rest: string)

  /** The four colour names `make_donut` knows. */
  predicate KnownColour(colour: string)
  {
    colour == "blue" || colour == "green" || colour == "orange" || colour == "red"
  }

  /** The chain of `if input_color == ...` assignments to `chart_color`.
      They test distinct names, so at most one of them fires. */
  function PaletteFor(colour: string): (p: Option<Palette>)
    ensures p.Some? <==> KnownColour(colour)
  {
    if colour == "blue" then Some(Palette("#29b5e8", "#155F7A"))
    else if colour == "green" then Some(Palette("#27AE60", "#12783D"))
    else if colour == "orange" then Some(Palette("#F39C12", "#875A12"))
    else if colour == "red" then Some(Palette("#E74C3C", "#781F16"))
    else None
  }

  /** What the three layered charts are drawn from. */
  datatype DonutData = DonutData(
    topics: seq<string>,      // the "Topic" column of both frames
    values: seq<int>,         // the "% value" column of the value ring
    background: seq<int>,     // the "% value" column of the background ring
    domain: seq<string>,      // the colour scale's domain
    palette: Palette,         // the colour scale's range
    caption: string)          // the text mark

  /** `make_donut(input_response, input_text, input_color)`. An unknown
      colour leaves `chart_color` unassigned, and reading it for the colour
      scale raises. */
  function MakeDonut(response: int, text: string, colour: string): (r: Result<DonutData>)
    ensures r.Fail? <==> !KnownColour(colour)
    ensures r.Fail? ==> r.error == UnboundLocalError
    ensures r.Ok? ==> Some(r.value.palette) == PaletteFor(colour)
    ensures r.Ok? ==> r.value.topics == ["", text] && r.value.domain == [text, ""]
    // the value ring: the rest, then the response, two slices making up 100
    ensures r.Ok? ==> (|r.value.values| == 2 && r.value.values[1] == response &&
                       r.value.values[0] + r.value.values[1] == 100)
    // the background ring is always full
    ensures r.Ok? ==> r.value.background == [100, 0]
    ensures r.Ok? ==> r.value.caption == IntText(response) + " %"
    ensures r.Ok? ==> LabelOf(r.value.caption, response)
  {
    match PaletteFor(colour)
    case None => Fail(UnboundLocalError)
    case Some(p) =>
      IntTextRoundTrip(response);
      Ok(DonutData(["", text], [100 - response, response], [100, 0], [text, ""], p,
                   IntText(response) + " %"))
  }

  /** `caption` is the decimal text of `response` followed by " %": it reads
      back as `response`. */
  predicate LabelOf(caption: string, response: int)
  {
    && |caption| >= 3
    && caption[|caption| - 2..] == " %"
    && var number := caption[..|caption| - 2];
       && (number[0] == '-' ==> forall i :: 1 <= i < |number| ==> IsDigit(number[i]))
       && (number[0] != '-' ==> forall i :: 0 <= i < |number| ==> IsDigit(number[i]))
       && ParseInt(number) == response
  }

  /** A response of 0 draws a value ring identical to the background ring
      (nothing filled); a response of 100 fills the ring completely. */
  lemma EmptyAndFullRings(text: string, colour: string)
    requires KnownColour(colour)
    ensures MakeDonut(0, text, colour).value.values == MakeDonut(0, text, colour).value.background
    ensures MakeDonut(100, text, colour).value.values == [0, 100]
  {
  }

  /** Each known name has a palette of its own. */
  lemma PalettesDistinct(a: string, b: string)
    requires KnownColour(a) && KnownColour(b) && a != b
    ensures PaletteFor(a) != PaletteFor(b)
  {
  }
}
