// The per-gallery rotator wired by initSlideshows: one Slideshow per
// '.slideshow-container', holding the captured currentIndex and slideInterval,
// the 'active' class of every image and dot, and the intervals the browser
// still runs for it.
module Slideshows {
  import opened Slides

  /** One '.slideshow-image' as the page is loaded: its source and whether the markup marks it active. */
  datatype ImageMarkup = ImageMarkup(slide: Slide, active: bool)

  /** What initSlideshows finds in one '.slideshow-container'. */
  datatype Container = Container(images: seq<ImageMarkup>, dots: seq<bool>, hasPrev: bool, hasNext: bool)

  class Slideshow {
    /** The images of the container, in document order. */
    const slides: seq<Slide>
    /** Whether image j carries the 'active' class. */
    const images: array<bool>
    /** Whether dot j carries the 'active' class; there may be more or fewer dots than images. */
    const dots: array<bool>
    /** Whether a '.prev' / '.next' arrow exists, so that its click listener is wired. */
    const hasPrev: bool
    const hasNext: bool

    var currentIndex: int
    /** Handles of the intervals set for this gallery and not yet cleared. */
    var live: set<nat>
    /** The captured slideInterval: the handle returned by the latest setInterval. */
    var slideInterval: nat
    /** The handle the next setInterval returns; handles are never reused. */
    var nextHandle: nat

    ghost predicate Valid()
      reads this
    {
      && images != dots
      && images.Length == |slides|
      && 0 <= currentIndex
      && (currentIndex < images.Length || currentIndex == 0)
      && (forall h :: h in live ==> h < nextHandle)
      && slideInterval < nextHandle
    }

    /** No interval runs for this gallery except, possibly, the one slideInterval names. */
    ghost predicate AtMostOneLive()
      reads this
    {
      live <= {slideInterval}
    }

    /** Image k and dot k, and no other image or dot, are active (dot k may not exist). */
    ghost predicate Shows(k: int)
      reads images, dots
    {
      OnlyActive(images[..], k) && OnlyActive(dots[..], k)
    }

    /** The slides, the 'active' flags and the arrows are those the container's markup holds. */
    ghost predicate FromContainer(c: Container)
      reads images, dots
    {
      && |slides| == |c.images| && images.Length == |c.images|
      && (forall j :: 0 <= j < |c.images| ==> slides[j] == c.images[j].slide && images[j] == c.images[j].active)
      && dots[..] == c.dots && hasPrev == c.hasPrev && hasNext == c.hasNext
    }

    /** The per-container setup of initSlideshows: index 0, then startSlideshow(). */
    constructor (c: Container)
      ensures Valid() && fresh(images) && fresh(dots)
      ensures FromContainer(c)
      ensures currentIndex == 0 && live == {slideInterval}
    {
      slides := seq(|c.images|, j requires 0 <= j < |c.images| => c.images[j].slide);
      images := new bool[|c.images|](j requires 0 <= j < |c.images| => c.images[j].active);
      dots := new bool[|c.dots|](j requires 0 <= j < |c.dots| => c.dots[j]);
      hasPrev, hasNext := c.hasPrev, c.hasNext;
      currentIndex := 0;
      live := {};
      slideInterval, nextHandle := 0, 1;
      new;
      StartSlideshow();
    }

    /**
     * showSlide: wrap the index, clear every image and dot, activate the
     * chosen image and its dot if there is one, store the index. With no
     * images, the dots have already been cleared when images[index] turns
     * out to be undefined and the handler throws; the index is not stored.
     */
    method ShowSlide(index: int) returns (o: Outcome)
      requires Valid()
      modifies this`currentIndex, images, dots
      ensures Valid()
      ensures images.Length >= 1 ==> o == Done && currentIndex == Wrap(index, images.Length) && Shows(currentIndex)
      ensures images.Length >= 1 ==> CountActive(images[..]) == 1
      ensures images.Length >= 1 ==> CountActive(dots[..]) == if currentIndex < dots.Length then 1 else 0
      ensures images.Length == 0 ==> o == Threw && currentIndex == old(currentIndex) && OnlyActive(dots[..], -1)
    {
      var k := Wrap(index, images.Length);
      for j := 0 to images.Length
        modifies images
        invariant forall m :: 0 <= m < j ==> !images[m]
      {
        images[j] := false;
      }
      for j := 0 to dots.Length
        modifies dots
        invariant forall m :: 0 <= m < j ==> !dots[m]
      {
        dots[j] := false;
      }
      if images.Length == 0 {
        return Threw;
      }
      images[k] := true;
      if k < dots.Length {
        dots[k] := true;
      }
      currentIndex := k;
      o := Done;
      OnlyActiveCount(images[..], k);
      OnlyActiveCount(dots[..], k);
    }

    /** startSlideshow: set a new interval and store its handle, without clearing any. */
    method StartSlideshow()
      requires Valid()
      modifies this`live, this`slideInterval, this`nextHandle
      ensures Valid()
      ensures slideInterval == old(nextHandle) && slideInterval !in old(live)
      ensures live == old(live) + {slideInterval}
      ensures |live| == |old(live)| + 1
    {
      slideInterval := nextHandle;
      nextHandle := nextHandle + 1;
      live := live + {slideInterval};
    }

    /** resetInterval: clear the stored interval, then startSlideshow. */
    method ResetInterval()
      requires Valid()
      modifies this`live, this`slideInterval, this`nextHandle
      ensures Valid()
      ensures slideInterval == old(nextHandle)
      ensures live == (old(live) - {old(slideInterval)}) + {slideInterval}
      ensures old(AtMostOneLive()) ==> live == {slideInterval}
    {
      live := live - {slideInterval};
      StartSlideshow();
    }

    /** The body every click listener shares: showSlide, then resetInterval unless showSlide threw. */
    method ShowSlideAndReset(index: int) returns (o: Outcome)
      requires Valid()
      modifies this`currentIndex, this`live, this`slideInterval, this`nextHandle, images, dots
      ensures Valid()
      ensures images.Length >= 1 ==> o == Done && currentIndex == Wrap(index, images.Length) && Shows(currentIndex)
      ensures o == Done ==> slideInterval == old(nextHandle) && live == (old(live) - {old(slideInterval)}) + {slideInterval}
      ensures o == Done && old(AtMostOneLive()) ==> live == {slideInterval}
      ensures images.Length == 0 ==> o == Threw && OnlyActive(dots[..], -1)
      ensures o == Threw ==> currentIndex == old(currentIndex) && live == old(live) && slideInterval == old(slideInterval)
    {
      o := ShowSlide(index);
      if o == Done {
        ResetInterval();
      }
    }

    /** Click on '.prev': the slide before the current one, and a fresh period. */
    method ClickPrev() returns (o: Outcome)
      requires Valid() && hasPrev
      modifies this`currentIndex, this`live, this`slideInterval, this`nextHandle, images, dots
      ensures Valid()
      ensures images.Length >= 1 ==> o == Done && currentIndex == Wrap(old(currentIndex) - 1, images.Length) && Shows(currentIndex)
      ensures o == Done ==> slideInterval == old(nextHandle) && live == (old(live) - {old(slideInterval)}) + {slideInterval}
      ensures o == Done && old(AtMostOneLive()) ==> live == {slideInterval}
      ensures images.Length == 0 ==> o == Threw && OnlyActive(dots[..], -1)
      ensures o == Threw ==> currentIndex == old(currentIndex) && live == old(live) && slideInterval == old(slideInterval)
    {
      o := ShowSlideAndReset(currentIndex - 1);
    }

    /** Click on '.next': the slide after the current one, and a fresh period. */
    method ClickNext() returns (o: Outcome)
      requires Valid() && hasNext
      modifies this`currentIndex, this`live, this`slideInterval, this`nextHandle, images, dots
      ensures Valid()
      ensures images.Length >= 1 ==> o == Done && currentIndex == Wrap(old(currentIndex) + 1, images.Length) && Shows(currentIndex)
      ensures o == Done ==> slideInterval == old(nextHandle) && live == (old(live) - {old(slideInterval)}) + {slideInterval}
      ensures o == Done && old(AtMostOneLive()) ==> live == {slideInterval}
      ensures images.Length == 0 ==> o == Threw && OnlyActive(dots[..], -1)
      ensures o == Threw ==> currentIndex == old(currentIndex) && live == old(live) && slideInterval == old(slideInterval)
    {
      o := ShowSlideAndReset(currentIndex + 1);
    }

    /** Click on dot k: slide k (wrapped to 0 when there are fewer images than dots), and a fresh period. */
    method ClickDot(k: nat) returns (o: Outcome)
      requires Valid() && k < dots.Length
      modifies this`currentIndex, this`live, this`slideInterval, this`nextHandle, images, dots
      ensures Valid()
      ensures images.Length >= 1 ==> o == Done && currentIndex == Wrap(k, images.Length) && Shows(currentIndex)
      ensures k < images.Length ==> currentIndex == k && dots[k] && images[k]
      ensures o == Done ==> slideInterval == old(nextHandle) && live == (old(live) - {old(slideInterval)}) + {slideInterval}
      ensures o == Done && old(AtMostOneLive()) ==> live == {slideInterval}
      ensures images.Length == 0 ==> o == Threw && OnlyActive(dots[..], -1)
      ensures o == Threw ==> currentIndex == old(currentIndex) && live == old(live) && slideInterval == old(slideInterval)
    {
      o := ShowSlideAndReset(k);
    }

    /** mouseenter on the container: clear the stored interval; the index and flags stay. */
    method MouseEnter()
      requires Valid()
      modifies this`live
      ensures Valid()
      ensures live == old(live) - {slideInterval}
      ensures old(AtMostOneLive()) ==> live == {}
    {
      live := live - {slideInterval};
    }

    /** mouseleave on the container: startSlideshow, which clears nothing. */
    method MouseLeave()
      requires Valid()
      modifies this`live, this`slideInterval, this`nextHandle
      ensures Valid()
      ensures live == old(live) + {slideInterval} && slideInterval !in old(live)
      ensures old(live) == {old(slideInterval)} ==> live == {old(slideInterval), slideInterval} && |live| == 2
    {
      StartSlideshow();
    }

    /** mouseleave as evidently intended: resume through resetInterval, so no interval is left behind. */
    method MouseLeaveCorrected()
      requires Valid()
      modifies this`live, this`slideInterval, this`nextHandle
      ensures Valid()
      ensures live == (old(live) - {old(slideInterval)}) + {slideInterval}
      ensures old(AtMostOneLive()) ==> live == {slideInterval}
    {
      ResetInterval();
    }

    /**
     * One 3000 ms period elapses: each live interval fires its callback,
     * showSlide(currentIndex + 1), once. A callback that throws does not
     * stop its interval.
     */
    method Tick()
      requires Valid()
      modifies this`currentIndex, images, dots
      ensures Valid()
      ensures images.Length >= 1 ==> currentIndex == Advance(old(currentIndex), images.Length, |live|)
      ensures images.Length >= 1 && |live| > 0 ==> Shows(currentIndex)
      ensures images.Length == 0 ==> currentIndex == old(currentIndex)
      ensures images.Length == 0 && |live| > 0 ==> OnlyActive(dots[..], -1)
      ensures |live| == 0 ==> images[..] == old(images[..]) && dots[..] == old(dots[..])
    {
      var fired := 0;
      while fired < |live|
        invariant Valid()
        invariant 0 <= fired <= |live|
        invariant images.Length >= 1 ==> currentIndex == Advance(old(currentIndex), images.Length, fired)
        invariant images.Length >= 1 && fired > 0 ==> Shows(currentIndex)
        invariant images.Length == 0 ==> currentIndex == old(currentIndex)
        invariant images.Length == 0 && fired > 0 ==> OnlyActive(dots[..], -1)
        invariant fired == 0 ==> images[..] == old(images[..]) && dots[..] == old(dots[..])
      {
        var _ := ShowSlide(currentIndex + 1);
        if images.Length >= 1 {
          AdvanceCompose(old(currentIndex), images.Length, fired, 1);
        }
        fired := fired + 1;
      }
    }
  }

  /** initSlideshows: one started rotator per container, in document order. */
  method InitSlideshows(containers: seq<Container>) returns (shows: seq<Slideshow>)
    ensures |shows| == |containers|
    ensures forall i :: 0 <= i < |shows| ==>
              && fresh(shows[i]) && fresh(shows[i].images) && fresh(shows[i].dots)
              && shows[i].Valid() && shows[i].FromContainer(containers[i])
              && shows[i].currentIndex == 0 && shows[i].live == {shows[i].slideInterval}
    ensures forall i, j :: 0 <= i < |shows| && 0 <= j < |shows| && i != j ==> Apart(shows[i], shows[j])
  {
    shows := [];
    for k := 0 to |containers|
      invariant |shows| == k
      invariant forall i :: 0 <= i < k ==>
                  && fresh(shows[i]) && fresh(shows[i].images) && fresh(shows[i].dots)
                  && shows[i].Valid() && shows[i].FromContainer(containers[i])
                  && shows[i].currentIndex == 0 && shows[i].live == {shows[i].slideInterval}
      invariant forall i, j :: 0 <= i < k && 0 <= j < k && i != j ==> Apart(shows[i], shows[j])
    {
      var s := new Slideshow(containers[k]);
      shows := shows + [s];
    }
  }

  /** Two rotators share neither their state nor their flag arrays. */
  ghost predicate Apart(s: Slideshow, t: Slideshow)
  {
    && s != t
    && s.images != t.images && s.dots != t.dots
    && s.images != t.dots && s.dots != t.images
  }

  /** Galleries rotate independently: a click on one leaves every other gallery as it was. */
  method TwoGalleriesIndependent() returns (first: int, secondIndex: int, secondFlags: seq<bool>)
    ensures first == 1
    ensures secondIndex == 0 && secondFlags == [true, false, false]
  {
    var shows := InitSlideshows([ThreeImages(), ThreeImages()]);
    var _ := shows[0].ClickNext();
    first := shows[0].currentIndex;
    secondIndex := shows[1].currentIndex;
    secondFlags := shows[1].images[..];
  }

  /**
   * Hover a gallery, click '.next' while hovering (resetInterval starts an
   * interval), then leave (startSlideshow starts another without clearing):
   * two intervals run, and a single period advances a three-image gallery
   * two slides, 1 -> 2 -> 0. A later hover clears only the stored, newer
   * interval, so the older one keeps running.
   */
  method HoverClickLeave() returns (running: nat, afterOnePeriod: int, leftAfterHover: nat)
    ensures running == 2
    ensures afterOnePeriod == 0
    ensures leftAfterHover == 1
  {
    var s := new Slideshow(ThreeImages());
    s.MouseEnter();
    var _ := s.ClickNext();
    s.MouseLeave();
    running := |s.live|;
    s.Tick();
    afterOnePeriod := s.currentIndex;
    s.MouseEnter();
    leftAfterHover := |s.live|;
  }

  /** The same interaction with the corrected mouseleave: one interval, one slide per period. */
  method HoverClickLeaveCorrected() returns (running: nat, afterOnePeriod: int)
    ensures running == 1
    ensures afterOnePeriod == 2
  {
    var s := new Slideshow(ThreeImages());
    s.MouseEnter();
    var _ := s.ClickNext();
    s.MouseLeaveCorrected();
    running := |s.live|;
    s.Tick();
    afterOnePeriod := s.currentIndex;
  }

  function ThreeImages(): Container
  {
    Container([ImageMarkup(Slide("1.jpg", ""), true), ImageMarkup(Slide("2.jpg", ""), false), ImageMarkup(Slide("3.jpg", ""), false)],
              [true, false, false], true, true)
  }
}
