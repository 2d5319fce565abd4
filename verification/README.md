# Travel-blog photo galleries: a Dafny model

This project models the stateful core of `script.js`, the client script of a static travel-blog page:

- **Rotator.** Each `.slideshow-container` gets one rotator. It keeps:
  - a current index;
  - the `active` class of every image and every indicator dot;
  - the intervals that auto-advance it.

  It responds to arrow and dot clicks and to hover pause and resume.
- **Lightbox.** Clicking a photo card opens a modal lightbox. The lightbox keeps its own index, seeded from the card's active slide. It navigates with the same wrap rule, locks page scrolling while open, and unlocks it on any of its three close paths.
- **Card-click guard.** A click opens the lightbox only if it did not land inside a slideshow arrow or a dot.
- **Scroll-spy.** `updateActiveLink` marks the navigation link of the section the page is scrolled into.

Timers are abstract:

- An interval is a handle in a set of live handles. `setInterval` adds a fresh one and `clearInterval` removes the stored one.
- `Tick` is one 3000 ms period. In it, every live interval runs `showSlide(currentIndex + 1)` once.
- The lightbox's 400 ms removal timeout is a queue of pending removals. `FireRemoval` runs the oldest one.

Modules, one file each:

| file | module | models |
|---|---|---|
| `slides.dfy` | `Slides` | the wrap rule, the auto-advance arithmetic, `findIndex` over `active` flags, counting active flags |
| `slideshows.dfy` | `Slideshows` | `initSlideshows`: the class `Slideshow` and its listeners |
| `photo_modal.dfy` | `PhotoModal` | the card-click listener and `showPhotoModal`: the class `Page` (body overflow, attached overlays, pending removals) and the class `ModalSession` |
| `nav_links.dfy` | `NavLinks` | `updateActiveLink` |

Behaviour of the code that the model keeps as written:

- **The wrap is one step, not a modulo.** A negative index becomes `n - 1` and an index `>= n` becomes `0`. So `showSlide(4)` on three images shows image 0, not image 1. For indices from -1 to n the wrap agrees with the modulo. Beyond that range it need not: for n >= 2, `Wrap(n + 1, n)` is 0 while `(n + 1) % n` is 1 (`WrapOneStepIsModulo`, `WrapIsNotModulo`).
- **An empty gallery throws.** With no images, `showSlide` first clears every dot. Then `images[index]` evaluates to `undefined`, and reading `.classList` on it throws a TypeError. The index is not stored. In a click listener, the throw also skips `resetInterval`. The model states this as the outcome `Threw`, not as a precondition.
- **`startSlideshow` never clears an interval.** Only `resetInterval` and `mouseenter` clear one, and only the stored one.
- **Overlays stack.** Every qualifying card click attaches one more overlay. Closing any overlay unlocks scrolling, even while another overlay is still attached (`StackedLightboxes`).
- **A second close throws later.** Closing twice while the overlay fades out schedules two removals, and the second `removeChild` throws (`CloseTwice`).
- **Missing card text throws.** A card without `.photo-info h4` or `.photo-info p` throws before anything is built. No lightbox opens.
- **The counter is fixed.** The footer counter of a gallery lightbox is set once, to the first active index plus one over the image count. Navigation never changes it.

## Model

| member | source | states |
|---|---|---|
| `Slides.Wrap` | script.js:780-784 | for n >= 1 the wrapped index lies in [0, n); an index already in range is kept; for n = 0 the result is negative exactly when the index is |
| `Slides.WrapOneStepIsModulo` | script.js:404-405 | for -1 <= index <= n the one-step wrap equals index mod n |
| `Slides.WrapIsNotModulo` | script.js:780-784 | for n >= 2, Wrap(n + 1, n) is 0 while (n + 1) mod n is 1: the wrap is not a modulo |
| `Slides.Advance` | script.js:806-808 | after at least one interval callback, the index lies in [0, n); after none, it is unchanged |
| `Slides.AdvanceIsModulo` | script.js:805-809 | k callbacks from an in-range index i land at (i + k) mod n |
| `Slides.AdvanceCompose` | script.js:805-809 | a callbacks followed by b callbacks reach the same index as a + b callbacks |
| `Slides.FindActive` | script.js:270 | the result is -1 exactly when no image is active; otherwise it is the first active position |
| `Slides.OnlyActiveCount` | script.js:786-798 | flags set at position k and nowhere else hold exactly one active element when k is in range, and none otherwise |
| `Slides.FindActiveOnly` | script.js:270 | when only position k is active, findIndex returns k |
| `Slideshows.Slideshow.constructor` | script.js:770-818 | a rotator starts with the markup's flags, index 0 and exactly one live interval, the stored one |
| `Slideshows.Slideshow.ShowSlide` | script.js:778-802 | with images: the new index is the wrapped target; image k and dot k, and nothing else, are active; exactly one image is active; no dot is active when dot k does not exist. Without images: the handler throws, all dots are cleared and the index stays. No timer changes. |
| `Slideshows.Slideshow.StartSlideshow` | script.js:805-809 | adds one fresh live interval and stores its handle; clears none, so the live count grows by one |
| `Slideshows.Slideshow.ResetInterval` | script.js:812-815 | removes the stored interval, then adds a fresh one; if at most the stored interval was live, exactly the new one is live |
| `Slideshows.Slideshow.ShowSlideAndReset` | script.js:821-844 | showSlide, then resetInterval unless showSlide threw; a throw leaves the timers and the index as they were |
| `Slideshows.Slideshow.ClickPrev` | script.js:821-827 | shows Wrap(currentIndex - 1) with only that image and dot active, then resets the interval; with no images it throws after clearing every dot, leaving the index and the timers as they were |
| `Slideshows.Slideshow.ClickNext` | script.js:829-835 | shows Wrap(currentIndex + 1) with only that image and dot active, then resets the interval; with no images it throws after clearing every dot, leaving the index and the timers as they were |
| `Slideshows.Slideshow.ClickDot` | script.js:838-844 | dot k shows Wrap(k), which is k itself when image k exists, then resets the interval; with no images it throws after clearing every dot, leaving the index and the timers as they were |
| `Slideshows.Slideshow.MouseEnter` | script.js:847-849 | removes the stored interval and nothing else; the index and the flags stay; with at most that interval live, none is left |
| `Slideshows.Slideshow.MouseLeave` | script.js:852-854 | starts a fresh interval without clearing any; if the stored interval was still live, two are live afterwards |
| `Slideshows.Slideshow.MouseLeaveCorrected` | script.js:852-854 | resumes through resetInterval: with at most the stored interval live beforehand, exactly one is live afterwards |
| `Slideshows.Slideshow.Tick` | script.js:806-808 | one period moves the index by Advance(i, n, number of live intervals) and leaves only that image and dot active; with no live interval, nothing changes; with no images, the index stays |
| `Slideshows.InitSlideshows` | script.js:766-775 | one fresh, started rotator per container, in document order: its slides, image flags, dots and arrows are that container's, it is at index 0 with one live interval, and no two rotators share an object or a flag array |
| `Slideshows.TwoGalleriesIndependent` | script.js:766-835 | a next click on the first of two galleries moves it to slide 1 while the second stays at slide 0 with its flags untouched |
| `Slideshows.HoverClickLeave` | script.js:847-854 | hover, a next click and leaving leave two intervals live; one period then advances a three-image gallery two slides, 1 → 2 → 0; hovering again afterwards still leaves one interval live, since its handle is no longer stored |
| `Slideshows.HoverClickLeaveCorrected` | script.js:852-854 | the same interaction with the corrected mouseleave leaves one interval; one period moves slide 1 to slide 2 |
| `PhotoModal.Closest` | script.js:171 | true exactly when the target or one of its ancestors has the class |
| `PhotoModal.OpensModal` | script.js:169-175 | the click opens the lightbox exactly when neither the target nor any ancestor is a `.slideshow-arrow` or a `.dot` |
| `PhotoModal.Seed` | script.js:270-280 | the starting index is the first active slide when there is one and 0 otherwise; it lies in range whenever there is an image |
| `PhotoModal.SeedIsShownSlide` | script.js:270-280 | once the rotator has shown slide k, the lightbox opens on k |
| `PhotoModal.Without` | script.js:670 | removeChild keeps every other overlay; on distinct overlays it removes exactly one when present, and nothing when absent |
| `PhotoModal.WithoutKeepsOrder` | script.js:670 | removing an overlay that occurs once leaves the others attached in their order |
| `PhotoModal.Page.ShowPhotoModal` | script.js:181-685 | a card lacking title or description text throws and changes nothing. Otherwise a fresh lightbox is built for the card: clones of its slides, label, counter, seed index with only that clone and dot highlighted. Its overlay is appended after those already attached, and scrolling is locked. |
| `PhotoModal.Page.OnCardClick` | script.js:152-176 | without a placeholder, or on a click inside an arrow or a dot, nothing happens; a card lacking title or description text opens nothing and changes nothing; otherwise a lightbox opens exactly as ShowPhotoModal does: fresh overlay appended, scrolling locked, pending removals kept, seed index and counter as there |
| `PhotoModal.Page.FireRemoval` | script.js:669-671 | the oldest pending removal removes its overlay if it is still attached, and throws otherwise |
| `PhotoModal.ModalSession.constructor` | script.js:267-398 | a gallery lightbox clones every slide and starts at the seed; clone k and dot k, and nothing else, are highlighted; the counter reads first-active + 1 over the count. A single-image lightbox shows the image or the placeholder icon. |
| `PhotoModal.ModalSession.ShowModalImage` | script.js:403-417 | the new index is the wrapped target; only that clone is visible and only that dot highlighted; with at least one image, exactly one of each; nothing outside the lightbox changes |
| `PhotoModal.ModalSession.Prev` | script.js:419-422 | shows Wrap(index - 1) in the lightbox only |
| `PhotoModal.ModalSession.Next` | script.js:424-427 | shows Wrap(index + 1) in the lightbox only |
| `PhotoModal.ModalSession.Dot` | script.js:395-397 | modal dot k shows clone k |
| `PhotoModal.ModalSession.CloseModal` | script.js:664-672 | unlocks scrolling (overflow '') and queues the overlay's removal |
| `PhotoModal.ModalSession.OnCloseClick` | script.js:674-681 | the close button, the close icon and a click whose target is the overlay itself close the lightbox; a click inside its content does not and changes nothing |
| `PhotoModal.IndependentIndices` | script.js:403-427 | navigating the lightbox back from slide 1 to 0 leaves the rotator at 1, and the rotator's next period moves it to 2 while the lightbox stays at 0 |
| `PhotoModal.DotClickDoesNotOpen` | script.js:169-175 | a click on a slideshow dot attaches no overlay |
| `PhotoModal.StackedLightboxes` | script.js:655-684 | two opens attach two overlays; closing the first unlocks scrolling while the second stays attached |
| `PhotoModal.CloseTwice` | script.js:664-681 | two closes of one lightbox queue two removals; the first removes the overlay and the second throws |
| `NavLinks.CurrentSection` | script.js:55-62 | the result is '' when no section contains scrollY; otherwise it is the id of the last section that contains it |
| `NavLinks.MarkLinks` | script.js:64-69 | link j is active exactly when its href equals '#' followed by the current id |
| `NavLinks.UpdateActiveLink` | script.js:54-70 | both of the above, in one scroll-handler run |
| `NavLinks.DistinctHrefsAtMostOneActive` | script.js:64-69 | when no two links share an href, at most one link is active |

## Left out

- Styling is not modelled: every `style.cssText`, `innerHTML` and hover-style assignment, including the card placeholder's hover scale. The dots' `scale(1.2)` transform is folded into the dot highlight flag.
- Real time is not modelled: the 3000 ms period, `requestAnimationFrame` and the 400 ms delay. They are replaced by `Tick` and `FireRemoval`.
- The navbar background and shadow swap, the mobile menu toggle, parallax and the scroll-progress bar are left out. They are styling reactions or floating-point arithmetic with no state to verify.
- The IntersectionObserver reveals, smooth scrolling, the scroll-to-top button and the injected stylesheet are left out. They are browser APIs with nothing to prove.
- The `window.showModalImage` wrapper is left out. The lightbox's own navigation never calls it, so the model keeps only the counter's initial text, as a constant.
- The static location text and the image-type icon are left out. They are fixed strings. Of the footer, only the "Gallery Image" / "Single Image" label is modelled.
- `stopPropagation` in the arrow and dot listeners is not modelled. The card listener is modelled with its own guard.
- Interval handles are numbered per rotator, while browsers share one handle space. Each rotator clears only the handle it stored, so this does not change behaviour.
- `scrollY`, `offsetTop` and `clientHeight` are integers. A browser may report a fractional `scrollY`.
- Listeners are not detached when an overlay is removed. Once removed, the overlay cannot be clicked, so this does not change behaviour.

## Findings

| source | as written | input that shows it | evidently intended | confidence | as-written member | corrected member |
|---|---|---|---|---|---|---|
| script.js:852-854 | `mouseleave` calls `startSlideshow`, which sets a new interval without clearing the stored one | On a three-image gallery: enter it with the pointer, click `.next` (its `resetInterval` starts an interval while hovering), then leave. Two intervals are now live, and the handle of the older one is no longer stored, so no later `mouseenter` clears it. Each period now advances two slides, 1 → 2 → 0; slide 2 stays up only for the time between the click and leaving. Hovering again clears only the newer interval, so the older one keeps running. | Resuming after hover clears the stored interval before starting one, so at most one interval runs per gallery | not executed; high | `Slideshows.HoverClickLeave` | `Slideshows.Slideshow.MouseLeaveCorrected` (scenario: `Slideshows.HoverClickLeaveCorrected`) |
