/** What the render pass writes: the presentation flags of each slide and of
    each indicator dot, as functions of the current index. */
module View {
  import opened Decimal

  /** A slide element's presentation state: its `active` class and its
      `aria-hidden` attribute. */
  datatype Slide = Slide(active: bool, ariaHidden: string)

  /** An indicator dot: its `active` class, its `data-index` attribute and its
      `aria-label` attribute. */
  datatype Dot = Dot(active: bool, dataIndex: string, ariaLabel: string)

  /** JavaScript's String(b) for a boolean, the value written to aria-hidden. */
  function BoolString(b: bool): string {
    if b then "true" else "false"
  }

  /** Slide i as the render pass leaves it when slide c is current. */
  function RenderedSlide(i: int, c: int): Slide {
    var active := i == c;
    Slide(active, BoolString(!active))
  }

  /** All n slides as the render pass leaves them. */
  function RenderSlides(n: nat, c: int): seq<Slide> {
    seq(n, i => RenderedSlide(i, c))
  }

  /** The dots after the render pass: only the `active` class is toggled. */
  function RenderDots(ds: seq<Dot>, c: int): seq<Dot> {
    seq(|ds|, i requires 0 <= i < |ds| => ds[i].(active := i == c))
  }

  /** The text of the aria-label of the dot for slide i. */
  function DotLabel(i: nat): string {
    "Go to slide " + NatToString(i + 1)
  }

  /** The dot buildDots creates for slide i while slide c is current. */
  function NewDot(i: nat, c: int): Dot {
    Dot(i == c, NatToString(i), DotLabel(i))
  }

  /** The dots buildDots leaves in the container for n slides. */
  function BuiltDots(n: nat, c: int): seq<Dot> {
    seq(n, i requires 0 <= i => NewDot(i, c))
  }

  /** Indices of the slides that carry the `active` class. */
  function ActiveSlides(s: seq<Slide>): set<int> {
    set i | 0 <= i < |s| && s[i].active
  }

  /** Indices of the dots that carry the `active` class. */
  function ActiveDots(ds: seq<Dot>): set<int> {
    set i | 0 <= i < |ds| && ds[i].active
  }

  /** After the render pass exactly one slide, the current one, is active,
      and every slide's aria-hidden is the negation of its active flag. */
  lemma RenderSlidesExactlyOne(n: nat, c: int)
    requires 0 <= c < n
    ensures |RenderSlides(n, c)| == n
    ensures ActiveSlides(RenderSlides(n, c)) == {c}
    ensures forall i :: 0 <= i < n ==>
      (RenderSlides(n, c)[i].active <==> i == c) &&
      RenderSlides(n, c)[i].ariaHidden == (if i == c then "false" else "true")
  {
  }

  /** After the render pass exactly one dot, the current one, is active, and
      its other attributes are untouched. */
  lemma RenderDotsExactlyOne(ds: seq<Dot>, c: int)
    requires 0 <= c < |ds|
    ensures |RenderDots(ds, c)| == |ds|
    ensures ActiveDots(RenderDots(ds, c)) == {c}
    ensures forall i :: 0 <= i < |ds| ==>
      (RenderDots(ds, c)[i].active <==> i == c) &&
      RenderDots(ds, c)[i].dataIndex == ds[i].dataIndex &&
      RenderDots(ds, c)[i].ariaLabel == ds[i].ariaLabel
  {
  }

  /** buildDots makes one dot per slide; dot i carries data-index i (read back
      as a number), the label "Go to slide i+1", and is active iff it is current. */
  lemma BuiltDotsShape(n: nat, c: int, i: nat)
    requires i < n
    ensures |BuiltDots(n, c)| == n
    ensures ParseDecimal(BuiltDots(n, c)[i].dataIndex) == i
    ensures BuiltDots(n, c)[i].ariaLabel == "Go to slide " + NatToString(i + 1)
    ensures BuiltDots(n, c)[i].active <==> i == c
  {
    ParseNatToString(i);
  }

  /** No two dots share a data-index or a label. */
  lemma BuiltDotsDistinct(n: nat, c: int, i: nat, j: nat)
    requires i < n && j < n && i != j
    ensures BuiltDots(n, c)[i].dataIndex != BuiltDots(n, c)[j].dataIndex
    ensures BuiltDots(n, c)[i].ariaLabel != BuiltDots(n, c)[j].ariaLabel
  {
    NatToStringInjective(i, j);
    NatToStringInjective(i + 1, j + 1);
    var p := "Go to slide ";
    assert DotLabel(i)[|p|..] == NatToString(i + 1);
    assert DotLabel(j)[|p|..] == NatToString(j + 1);
  }

  /** Re-rendering freshly built dots for another current index gives the dots
      buildDots would have built for that index; for the same index it changes
      nothing. */
  lemma RenderBuiltDots(n: nat, c: int, c': int)
    ensures RenderDots(BuiltDots(n, c), c') == BuiltDots(n, c')
  {
  }
}
