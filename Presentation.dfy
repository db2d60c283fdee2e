/** The presentation controller: the current-slide index, the slide elements and
    indicator dots it renders, the site container's `ready` class and
    `aria-hidden` attribute, and the intro's `hidden` class, with the handlers
    that change them. */
module Presentation {
  import opened Navigation
  import opened View

  /** Focus is in a text-entry field, where the key handler stays out of the way. */
  predicate IsTypingTarget(tag: string) {
    tag == "INPUT" || tag == "TEXTAREA"
  }

  class Controller {
    /** The slide elements found in the markup; their number never changes. */
    const slides: array<Slide>
    /** The children of the dot container. */
    var dots: seq<Dot>
    var current: int
    /** The site container's `ready` class and `aria-hidden` attribute. */
    var ready: bool
    var siteAriaHidden: string
    /** The intro container's `hidden` class. */
    var introHidden: bool

    /** The state between events: a valid index, and every slide and dot
        rendered for it. */
    ghost predicate Valid()
      reads this, slides
    {
      0 <= current < slides.Length &&
      slides[..] == RenderSlides(slides.Length, current) &&
      dots == BuiltDots(slides.Length, current)
    }

    /** Page load: the markup's slides, dots and site and intro state, then
        buildDots and updateSlides with slide 0 current. */
    constructor (markupSlides: seq<Slide>, markupDots: seq<Dot>,
                 siteReady: bool, siteHidden: string, introHiddenClass: bool)
      requires |markupSlides| >= 1
      ensures Valid() && fresh(slides)
      ensures current == 0 && slides.Length == |markupSlides|
      ensures slides[0].active && dots[0].active
      ensures ready == siteReady && siteAriaHidden == siteHidden
      ensures introHidden == introHiddenClass
    {
      slides := new Slide[|markupSlides|](i requires 0 <= i < |markupSlides| => markupSlides[i]);
      dots := markupDots;
      current := 0;
      ready := siteReady;
      siteAriaHidden := siteHidden;
      introHidden := introHiddenClass;
      new;
      BuildDots();
      UpdateSlides();
      RenderBuiltDots(slides.Length, 0, 0);
      RenderSlidesExactlyOne(slides.Length, 0);
      RenderDotsExactlyOne(dots, 0);
    }

    /** buildDots: empty the dot container, then append one dot per slide. */
    method BuildDots()
      modifies this`dots
      ensures dots == BuiltDots(slides.Length, current)
    {
      dots := [];
      for i := 0 to slides.Length
        invariant dots == BuiltDots(i, current)
      {
        dots := dots + [NewDot(i, current)];
      }
    }

    /** updateSlides: mark each slide and each dot active iff it is the current
        one, and set each slide's aria-hidden to the negation. Focusing the
        current slide requires it to exist. */
    method UpdateSlides()
      requires 0 <= current < slides.Length
      modifies slides, this`dots
      ensures slides[..] == RenderSlides(slides.Length, current)
      ensures dots == RenderDots(old(dots), current)
    {
      for i := 0 to slides.Length
        invariant forall k :: 0 <= k < i ==> slides[k] == RenderedSlide(k, current)
        invariant dots == old(dots)
      {
        var active := i == current;
        slides[i] := Slide(active, BoolString(!active));
      }
      assert slides[..] == RenderSlides(slides.Length, current) by {
        forall k | 0 <= k < slides.Length
          ensures slides[..][k] == RenderSlides(slides.Length, current)[k]
        {
        }
      }
      ghost var before := dots;
      for i := 0 to |dots|
        invariant slides[..] == RenderSlides(slides.Length, current)
        invariant |dots| == |before|
        invariant forall k :: 0 <= k < i ==> dots[k] == before[k].(active := k == current)
        invariant forall k :: i <= k < |dots| ==> dots[k] == before[k]
      {
        dots := dots[i := dots[i].(active := i == current)];
      }
      assert dots == RenderDots(before, current);
    }

    /** goTo(index): store (index + N) % N and re-render. */
    method GoTo(index: int)
      requires Valid()
      requires index >= -slides.Length
      modifies this`current, this`dots, slides
      ensures Valid()
      ensures current == Wrap(index, slides.Length) && current == index % slides.Length
      ensures 0 <= index < slides.Length ==> current == index
      ensures current == old(current) ==> slides[..] == old(slides[..]) && dots == old(dots)
    {
      WrapInRange(index, slides.Length);
      current := Wrap(index, slides.Length);
      UpdateSlides();
      RenderBuiltDots(slides.Length, old(current), current);
      if 0 <= index < slides.Length {
        WrapIdentity(index, slides.Length);
      }
    }

    /** next(): goTo(current + 1). */
    method Next()
      requires Valid()
      modifies this`current, this`dots, slides
      ensures Valid()
      ensures current == NextIndex(old(current), slides.Length)
    {
      NextIsWrap(current, slides.Length);
      GoTo(current + 1);
    }

    /** prev(): goTo(current - 1). */
    method Prev()
      requires Valid()
      modifies this`current, this`dots, slides
      ensures Valid()
      ensures current == PrevIndex(old(current), slides.Length)
    {
      PrevIsWrap(current, slides.Length);
      GoTo(current - 1);
    }

    /** A click on dot i, which buildDots bound to goTo(i). */
    method ClickDot(i: nat)
      requires Valid() && i < |dots|
      modifies this`current, this`dots, slides
      ensures Valid()
      ensures current == i
    {
      GoTo(i);
    }

    /** The start button: hide the intro and reveal the site. */
    method Start()
      requires Valid()
      modifies this`ready, this`siteAriaHidden, this`introHidden
      ensures Valid()
      ensures ready && siteAriaHidden == "false" && introHidden
      ensures current == old(current) && dots == old(dots) && slides[..] == old(slides[..])
    {
      introHidden := true;
      ready := true;
      siteAriaHidden := "false";
    }

    /** The window's keydown handler, for a key pressed while the element with
        tag `focusedTag` has focus. */
    method KeyDown(focusedTag: string, key: string)
      requires Valid()
      modifies this, slides
      ensures Valid()
      ensures introHidden == old(introHidden)
      ensures IsTypingTarget(focusedTag) || (key != "ArrowRight" && key != "ArrowLeft" && key != "Escape") ==>
        current == old(current) && dots == old(dots) && slides[..] == old(slides[..]) &&
        ready == old(ready) && siteAriaHidden == old(siteAriaHidden)
      ensures !IsTypingTarget(focusedTag) && key == "ArrowRight" ==>
        current == NextIndex(old(current), slides.Length) &&
        ready == old(ready) && siteAriaHidden == old(siteAriaHidden)
      ensures !IsTypingTarget(focusedTag) && key == "ArrowLeft" ==>
        current == PrevIndex(old(current), slides.Length) &&
        ready == old(ready) && siteAriaHidden == old(siteAriaHidden)
      ensures !IsTypingTarget(focusedTag) && key == "Escape" ==>
        current == old(current) && dots == old(dots) && slides[..] == old(slides[..]) &&
        !ready && siteAriaHidden == "true"
    {
      if IsTypingTarget(focusedTag) {
        return;
      }
      if key == "ArrowRight" {
        Next();
      }
      if key == "ArrowLeft" {
        Prev();
      }
      if key == "Escape" {
        ready := false;
        siteAriaHidden := "true";
      }
    }
  }

  /** Three slides from page load: next, next, next wraps to the first, prev
      wraps to the last; a dot click lands exactly on its slide. */
  method ThreeSlideTour(s0: Slide, s1: Slide, s2: Slide)
  {
    var c := new Controller([s0, s1, s2], [], false, "true", false);
    assert c.current == 0;
    c.Next();
    assert c.current == 1;
    c.Next();
    assert c.current == 2;
    c.Next();
    assert c.current == 0;
    c.Prev();
    assert c.current == 2;
    c.ClickDot(1);
    assert c.current == 1 && c.dots[1].active && !c.dots[2].active;
    c.KeyDown("INPUT", "Escape");
    assert c.current == 1 && !c.ready;
    c.Start();
    assert c.ready && c.siteAriaHidden == "false" && c.current == 1;
    c.KeyDown("BODY", "Escape");
    assert !c.ready && c.siteAriaHidden == "true" && c.current == 1;
  }
}
