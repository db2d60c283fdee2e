# Slideshow presentation controller — Dafny model

This project models the navigation state machine of a single-page slideshow
(`script.js`). The controller owns a fixed sequence of slide elements, a
container of indicator dots (one per slide), the index `current` of the slide
on show, the site container's `ready` class and `aria-hidden` attribute, and
the intro container's `hidden` class.
It reacts to a start button, prev/next buttons, dot clicks and the keyboard
(ArrowRight, ArrowLeft, Escape).

Layout:

- `Decimal.dfy` holds the decimal numeral JavaScript's `String(i)` produces. It
  is used for a dot's `data-index` and its `aria-label`. The file proves that
  parsing the numeral gives the number back.
- `Navigation.dfy` holds JavaScript's truncating `%` and the index formula
  `(index + N) % N` of `goTo`. It also gives reference definitions of "the
  slide after" and "the slide before", with lemmas that tie them together.
- `View.dfy` holds the `Slide` and `Dot` values and what the render pass and
  `buildDots` write, as functions of `current`. Its lemmas state that exactly
  one slide and exactly one dot are active.
- `Presentation.dfy` holds the class `Controller`. Its `slides` field is an
  `array` updated in place. Its `dots` field is a `seq` that `buildDots`
  rebuilds. Its methods are `goTo`, `next`, `prev`, `updateSlides`,
  `buildDots`, the dot click, the start button and the key handler. The object
  invariant `Valid()` says that `current` is in range and that every slide and
  dot is rendered for it. Every handler keeps that invariant.

The number of slides N must be at least 1. With no slides, the initial
`updateSlides` reads `slides[0].focus` of an undefined element and throws
(script.js:40). So the constructor requires one slide or more. `goTo` requires
`index >= -N`, which every caller meets: they pass `current + 1`,
`current - 1` and a dot's own index.

Two details of the code shape the model:

- `goTo` computes `(index + N) % N` with JavaScript's sign-of-dividend `%`
  (script.js:44), so the result is guaranteed to stay in `[0, N)` only for `index >= -N`.
  Below `-N` it lies in `(-N, 0]`, and it is negative unless N divides
  `index`: with N >= 2, `goTo(-N - 1)` stores -1 (`Navigation.WrapBelowRange`).
  No caller reaches that case.
- The text-entry guard returns before any key is examined, Escape included
  (script.js:70).

## Model

| member | source | states |
|---|---|---|
| Decimal.NatToString | script.js:25-26 | `String(i)` of a count is a non-empty string of decimal digits with no leading zero |
| Decimal.ParseNatToString | script.js:26 | reading a dot's `data-index` text back as a number gives the index it was built from |
| Decimal.NatToStringInjective | script.js:25-26 | two numbers have the same decimal text exactly when they are equal |
| Navigation.JsRem | script.js:44 | JavaScript's `%` by a positive length: the result has the dividend's sign, is smaller in magnitude than the divisor, and differs from the dividend by a multiple of it |
| Navigation.WrapInRange | script.js:43-44 | for every index with `index >= -N`, `goTo` stores an index in `[0, N)` that equals `index` modulo N |
| Navigation.WrapIdentity | script.js:43-44 | an index already in `[0, N)`, such as a dot's, is stored unchanged |
| Navigation.WrapBelowRange | script.js:44 | with N >= 2, `goTo(-N - 1)` stores -1, outside `[0, N)` |
| Navigation.NextIsWrap | script.js:48 | `goTo(current + 1)` moves one slide on, and from the last slide back to slide 0 |
| Navigation.PrevIsWrap | script.js:49 | `goTo(current - 1)` moves one slide back, and from slide 0 to the last slide |
| Navigation.NextPrevInverse | script.js:48-49 | prev undoes next and next undoes prev, for every index in range |
| View.RenderSlidesExactlyOne | script.js:33-37 | after the render pass slide i is active iff i is current, so exactly one slide is active; its aria-hidden is "false" when active and "true" otherwise |
| View.RenderDotsExactlyOne | script.js:38 | after the render pass dot i is active iff i is current, so exactly one dot is active; its data-index and label are untouched |
| View.BuiltDotsShape | script.js:20-29 | buildDots makes N dots; dot i has data-index i, label "Go to slide " followed by i+1, and is active iff i is current |
| View.BuiltDotsDistinct | script.js:25-26 | no two dots share a data-index or an aria-label |
| View.RenderBuiltDots | script.js:24 | re-rendering built dots for a new index gives the dots buildDots would build for it, so rendering for the same index changes nothing |
| Presentation.Controller.constructor | script.js:86-88 | page load runs buildDots and then updateSlides with `current = 0`: the invariant holds and slide 0 and dot 0 are active; the site flags keep their markup values |
| Presentation.Controller.BuildDots | script.js:20-30 | the dot container is emptied and refilled with exactly one dot per slide, built for the current index |
| Presentation.Controller.UpdateSlides | script.js:32-41 | every slide is rewritten for the current index; every dot keeps its attributes and gets `active` iff it is current |
| Presentation.Controller.GoTo | script.js:43-46 | stores `(index + N) % N`, which equals `index` mod N and lies in range; an in-range index is stored as it is; the invariant is kept; when the index does not change, no slide or dot flag changes |
| Presentation.Controller.Next | script.js:48 | the next button (script.js:64) and ArrowRight: `current` becomes the slide after, wrapping to 0 after the last |
| Presentation.Controller.Prev | script.js:49 | the prev button (script.js:63) and ArrowLeft: `current` becomes the slide before, wrapping from 0 to the last |
| Presentation.Controller.ClickDot | script.js:27 | clicking dot i shows slide i exactly |
| Presentation.Controller.Start | script.js:52-60 | the intro gets its `hidden` class; the site becomes `ready` with aria-hidden "false"; `current`, slides and dots are unchanged |
| Presentation.Controller.KeyDown | script.js:67-83 | with focus in INPUT or TEXTAREA, nothing changes. Otherwise ArrowRight is next and ArrowLeft is prev. Escape keeps `current` and makes the site not ready with aria-hidden "true". Any other key changes nothing. |

## Left out

- DOM lookups, element creation and listener registration (script.js:8-15, 23, 27-28, 52, 63-64, 67). The model holds the slides and dots itself; each handler is a method.
- `focus()` on the current slide (script.js:40, 59) and `window.scrollTo` (script.js:81). They change no state the model keeps. The one thing modelled from line 40 is that it needs `slides[current]` to exist: `UpdateSlides` requires `current` in range.
- The timer steps: the intro's `display = 'none'` 500 ms after start (script.js:55) and the removal of its `hidden` class 10 ms after Escape (script.js:78). They run later, outside the handler. The model records only the synchronous `hidden` class on start. It leaves out the intro's `style.display`, including the synchronous reset on Escape (script.js:76). So after Escape, `introHidden` keeps its value until that later step, which is not modelled.
- The `dot` class name and other CSS meaning of `active`, `hidden` and `ready`. A dot's class list is modelled only by its `active` flag.
- A missing `document.activeElement` in the key handler yields a non-string tag (script.js:69). It is modelled as any tag other than INPUT or TEXTAREA, which behaves the same.
- An empty slide list: the constructor requires at least one slide because the source throws on it at load.
- The commented-out autoplay timer (script.js:90-92): it is not live code.
