// The lightbox of showPhotoModal and the card-click listener of
// setupPhotoInteractions. A Page holds what every lightbox shares (the body's
// overflow style, the overlays attached to the body, the pending removal
// timeouts); a ModalSession holds one lightbox's own index and the
// visibility of its clones and dots.
module PhotoModal {
  import opened Slides
  import opened Slideshows

  /** The media of a '.photo-card': a '.slideshow-container', or a lone '.photo-image' (which may be missing). */
  datatype Media = Gallery(show: Slideshow) | Single(image: Option<Slide>)

  /**
   * What the card offers the lightbox: whether it has a '.photo-placeholder'
   * (the click listener is only added when it does), the text of
   * '.photo-info h4' and '.photo-info p' when those elements exist, and its media.
   */
  datatype Card = Card(hasPlaceholder: bool, title: Option<string>, description: Option<string>, media: Media)

  /** What the modal's media area shows. */
  datatype View = GalleryView | ImageView(image: Slide) | Placeholder

  /** The footer counter text "position / total". */
  datatype Counter = Counter(position: int, total: nat)

  /** The three ways a click can reach closeModal. */
  datatype CloseClick = Backdrop(targetIsOverlay: bool) | CloseButton | CloseIcon

  /** Element.closest by class name: the click target or one of its ancestors (innermost first) has the class. */
  function Closest(path: seq<set<string>>, cls: string): (found: bool)
    ensures found <==> exists j :: 0 <= j < |path| && cls in path[j]
  {
    if |path| == 0 then false
    else cls in path[0] || Closest(path[1..], cls)
  }

  /** The card-click guard: open the lightbox unless the target lies inside a slideshow arrow or a dot. */
  function OpensModal(path: seq<set<string>>): (opens: bool)
    ensures opens <==> forall j :: 0 <= j < |path| ==> "slideshow-arrow" !in path[j] && "dot" !in path[j]
  {
    !(Closest(path, "slideshow-arrow") || Closest(path, "dot"))
  }

  /** currentModalIndex at open: the first active slide, or 0 when no slide is active. */
  function Seed(flags: seq<bool>): (k: nat)
    ensures |flags| >= 1 ==> k < |flags|
    ensures (exists j :: 0 <= j < |flags| && flags[j]) ==> flags[k] && forall j :: 0 <= j < k ==> !flags[j]
    ensures (forall j :: 0 <= j < |flags| ==> !flags[j]) ==> k == 0
  {
    var a := FindActive(flags);
    if a >= 0 then a else 0
  }

  /** Once showSlide has run, the lightbox opens on the rotator's current slide. */
  lemma SeedIsShownSlide(s: Slideshow)
    requires s.Valid() && s.images.Length >= 1 && s.Shows(s.currentIndex)
    ensures Seed(s.images[..]) == s.currentIndex
  {
    FindActiveOnly(s.images[..], s.currentIndex);
  }

  predicate Distinct(s: seq<nat>)
  {
    forall i, j :: 0 <= i < j < |s| ==> s[i] != s[j]
  }

  /** The overlays once removeChild has taken x out. */
  function Without(s: seq<nat>, x: nat): (r: seq<nat>)
    ensures forall y :: y in r <==> y in s && y != x
    ensures Distinct(s) ==> Distinct(r)
    ensures Distinct(s) && x in s ==> |r| == |s| - 1
    ensures x !in s ==> r == s
  {
    if |s| == 0 then []
    else if s[0] == x then Without(s[1..], x)
    else
      var t := Without(s[1..], x);
      assert Distinct(s) ==> Distinct(s[1..]) && s[0] !in t by {
        if Distinct(s) {
          assert forall k :: 0 <= k < |s| - 1 ==> s[1..][k] == s[k + 1];
        }
      }
      [s[0]] + t
  }

  /** Removing an overlay that occurs once keeps the others in their order. */
  lemma {:induction false} WithoutKeepsOrder(a: seq<nat>, x: nat, b: seq<nat>)
    requires x !in a && x !in b
    ensures Without(a + [x] + b, x) == a + b
    decreases |a|
  {
    var s := a + [x] + b;
    if |a| == 0 {
      assert s[0] == x && s[1..] == b;
    } else {
      assert s[0] == a[0] && s[1..] == a[1..] + [x] + b;
      WithoutKeepsOrder(a[1..], x, b);
      assert [a[0]] + (a[1..] + b) == a + b;
    }
  }

  class Page {
    /** document.body.style.overflow */
    var overflow: string
    /** The '.photo-modal' overlays attached to document.body, oldest first. */
    var overlays: seq<nat>
    /** Overlays whose 400 ms removal timeout is pending, in the order the timeouts fire. */
    var removals: seq<nat>
    /** The identity the next overlay gets. */
    var nextOverlay: nat

    ghost predicate Valid()
      reads this
    {
      && Distinct(overlays)
      && (forall x :: x in overlays ==> x < nextOverlay)
      && (forall x :: x in removals ==> x < nextOverlay)
    }

    constructor ()
      ensures Valid()
      ensures overflow == "" && overlays == [] && removals == []
    {
      overflow := "";
      overlays, removals := [], [];
      nextOverlay := 0;
    }

    /**
     * showPhotoModal: read the card's title and description (a missing
     * element throws before anything is built), build a new lightbox,
     * append its overlay to the body (no check for one already open) and
     * lock scrolling.
     */
    method ShowPhotoModal(card: Card) returns (r: Option<ModalSession>)
      requires Valid()
      requires card.media.Gallery? ==> card.media.show.Valid()
      modifies this
      ensures Valid()
      ensures card.title.None? || card.description.None? ==> r == None && unchanged(this)
      ensures card.title.Some? && card.description.Some? ==> r.Some?
      ensures r.Some? ==> && fresh(r.value) && fresh(r.value.visible) && fresh(r.value.highlight)
                          && r.value.Valid() && r.value.page == this && r.value.overlay == old(nextOverlay)
                          && overlays == old(overlays) + [r.value.overlay]
                          && overflow == "hidden" && removals == old(removals)
      ensures r.Some? ==> nextOverlay == old(nextOverlay) + 1
      ensures r.Some? ==> r.value.Opened(card)
      ensures r.Some? && card.media.Gallery? ==> r.value.index == Seed(card.media.show.images[..])
      ensures r.Some? && card.media.Gallery? ==>
                r.value.counter == Some(Counter(FindActive(card.media.show.images[..]) + 1, |r.value.clones|))
    {
      if card.title.None? || card.description.None? {
        return None;
      }
      var m := new ModalSession(this, nextOverlay, card);
      assert nextOverlay !in overlays;
      overlays := overlays + [nextOverlay];
      nextOverlay := nextOverlay + 1;
      overflow := "hidden";
      r := Some(m);
    }

    /** The click listener of a photo card. */
    method OnCardClick(card: Card, path: seq<set<string>>) returns (r: Option<ModalSession>)
      requires Valid()
      requires card.media.Gallery? ==> card.media.show.Valid()
      modifies this
      ensures Valid()
      ensures !card.hasPlaceholder || !OpensModal(path) ==> r == None && unchanged(this)
      ensures card.title.None? || card.description.None? ==> r == None && unchanged(this)
      ensures card.hasPlaceholder && OpensModal(path) && card.title.Some? && card.description.Some? ==> r.Some?
      ensures r.Some? ==> && fresh(r.value) && fresh(r.value.visible) && fresh(r.value.highlight)
                          && r.value.Valid() && r.value.page == this && r.value.overlay == old(nextOverlay)
                          && overlays == old(overlays) + [r.value.overlay]
                          && overflow == "hidden" && removals == old(removals)
      ensures r.Some? ==> nextOverlay == old(nextOverlay) + 1
      ensures r.Some? ==> r.value.Opened(card)
      ensures r.Some? && card.media.Gallery? ==> r.value.index == Seed(card.media.show.images[..])
      ensures r.Some? && card.media.Gallery? ==>
                r.value.counter == Some(Counter(FindActive(card.media.show.images[..]) + 1, |r.value.clones|))
    {
      if !card.hasPlaceholder || !OpensModal(path) {
        return None;
      }
      r := ShowPhotoModal(card);
    }

    /** The oldest pending removal timeout fires: removeChild, which throws when the overlay is already gone. */
    method FireRemoval() returns (o: Outcome)
      requires Valid() && |removals| > 0
      modifies this`overlays, this`removals
      ensures Valid()
      ensures removals == old(removals)[1..]
      ensures old(removals[0]) in old(overlays) ==> o == Done && overlays == Without(old(overlays), old(removals[0]))
      ensures old(removals[0]) in old(overlays) ==> |overlays| == |old(overlays)| - 1
      ensures old(removals[0]) !in old(overlays) ==> o == Threw && overlays == old(overlays)
    {
      var x := removals[0];
      assert forall y :: y in removals[1..] ==> y in removals;
      removals := removals[1..];
      if x in overlays {
        overlays := Without(overlays, x);
        o := Done;
      } else {
        o := Threw;
      }
    }
  }

  class ModalSession {
    const page: Page
    /** The identity of this lightbox's overlay among page.overlays. */
    const overlay: nat
    const title: string
    const description: string
    /** "Gallery Image" or "Single Image". */
    const typeLabel: string
    const view: View
    /** One clone per slide of the card's gallery; none for a single image. */
    const clones: seq<Slide>
    /** Whether clone j has opacity 1. */
    const visible: array<bool>
    /** Whether modal dot j is white (and, after navigation, scaled up). */
    const highlight: array<bool>
    /** The counter text, set once at open and never updated. */
    const counter: Option<Counter>
    /** currentModalIndex */
    var index: int

    ghost predicate Valid()
      reads this
    {
      && visible != highlight
      && visible.Length == |clones| && highlight.Length == |clones|
      && (!view.GalleryView? ==> |clones| == 0)
      && (|clones| >= 1 ==> 0 <= index < |clones|)
      && (|clones| == 0 ==> -1 <= index <= 0)
    }

    /** The lightbox is what showPhotoModal builds for this card. */
    ghost predicate Opened(card: Card)
      reads this, visible, highlight
    {
      && card.title == Some(title) && card.description == Some(description)
      && (card.media.Gallery? ==>
            && view == GalleryView && typeLabel == "Gallery Image"
            && clones == card.media.show.slides
            && OnlyActive(visible[..], index) && OnlyActive(highlight[..], index))
      && (card.media.Single? ==>
            && view == (if card.media.image.Some? then ImageView(card.media.image.value) else Placeholder)
            && typeLabel == "Single Image" && counter == None && clones == [] && index == 0)
    }

    constructor (page: Page, overlay: nat, card: Card)
      requires card.title.Some? && card.description.Some?
      requires card.media.Gallery? ==> card.media.show.Valid()
      ensures Valid() && fresh(visible) && fresh(highlight)
      ensures this.page == page && this.overlay == overlay
      ensures card.media.Gallery? ==> index == Seed(card.media.show.images[..])
      ensures card.media.Gallery? ==> counter == Some(Counter(FindActive(card.media.show.images[..]) + 1, |clones|))
      ensures Opened(card)
    {
      this.page, this.overlay := page, overlay;
      title, description := card.title.value, card.description.value;
      match card.media
      case Gallery(show) =>
        var flags := show.images[..];
        var seed := Seed(flags);
        var n := |show.slides|;
        view, typeLabel := GalleryView, "Gallery Image";
        clones := show.slides;
        visible := new bool[n](j requires 0 <= j < n => j == seed);
        highlight := new bool[n](j requires 0 <= j < n => j == seed);
        counter := Some(Counter(FindActive(flags) + 1, n));
        index := seed;
      case Single(image) =>
        view := if image.Some? then ImageView(image.value) else Placeholder;
        typeLabel := "Single Image";
        clones := [];
        visible := new bool[0];
        highlight := new bool[0];
        counter := None;
        index := 0;
    }

    /**
     * showModalImage: wrap the index, make clone j visible and dot j white
     * exactly when j is the new index, store the index. Nothing outside
     * this lightbox changes; in particular no rotator.
     */
    method ShowModalImage(i: int)
      requires Valid()
      modifies this`index, visible, highlight
      ensures Valid()
      ensures index == Wrap(i, |clones|)
      ensures OnlyActive(visible[..], index) && OnlyActive(highlight[..], index)
      ensures |clones| >= 1 ==> CountActive(visible[..]) == 1 && CountActive(highlight[..]) == 1
    {
      var k := Wrap(i, |clones|);
      for j := 0 to visible.Length
        modifies visible
        invariant forall m :: 0 <= m < j ==> visible[m] == (m == k)
      {
        visible[j] := j == k;
      }
      for j := 0 to highlight.Length
        modifies highlight
        invariant forall m :: 0 <= m < j ==> highlight[m] == (m == k)
      {
        highlight[j] := j == k;
      }
      index := k;
      OnlyActiveCount(visible[..], k);
      OnlyActiveCount(highlight[..], k);
    }

    /** The modal's previous arrow. */
    method Prev()
      requires Valid() && view == GalleryView
      modifies this`index, visible, highlight
      ensures Valid()
      ensures index == Wrap(old(index) - 1, |clones|)
      ensures OnlyActive(visible[..], index) && OnlyActive(highlight[..], index)
    {
      ShowModalImage(index - 1);
    }

    /** The modal's next arrow. */
    method Next()
      requires Valid() && view == GalleryView
      modifies this`index, visible, highlight
      ensures Valid()
      ensures index == Wrap(old(index) + 1, |clones|)
      ensures OnlyActive(visible[..], index) && OnlyActive(highlight[..], index)
    {
      ShowModalImage(index + 1);
    }

    /** The modal's dot k. */
    method Dot(k: nat)
      requires Valid() && view == GalleryView && k < |clones|
      modifies this`index, visible, highlight
      ensures Valid()
      ensures index == k
      ensures OnlyActive(visible[..], k) && OnlyActive(highlight[..], k)
    {
      ShowModalImage(k);
    }

    /** closeModal: unlock scrolling and schedule the overlay's removal 400 ms later. */
    method CloseModal()
      requires page.Valid() && overlay < page.nextOverlay
      modifies page`overflow, page`removals
      ensures page.Valid()
      ensures page.overflow == ""
      ensures page.removals == old(page.removals) + [overlay]
    {
      page.overflow := "";
      page.removals := page.removals + [overlay];
    }

    /** A click on the overlay, the close button or the close icon. */
    method OnCloseClick(c: CloseClick) returns (closed: bool)
      requires page.Valid() && overlay < page.nextOverlay
      modifies page`overflow, page`removals
      ensures page.Valid()
      ensures closed <==> c != Backdrop(false)
      ensures closed ==> page.overflow == "" && page.removals == old(page.removals) + [overlay]
      ensures !closed ==> page.overflow == old(page.overflow) && page.removals == old(page.removals)
    {
      closed := c != Backdrop(false);
      if closed {
        CloseModal();
      }
    }
  }

  /**
   * The lightbox and the rotator keep separate indices: navigating the
   * lightbox leaves the rotator's index where it was, and a rotator period
   * leaves the lightbox's index where it was.
   */
  method IndependentIndices() returns (rotatorAfterModalPrev: int, rotatorAfterTick: int, modalAfterTick: int)
    ensures rotatorAfterModalPrev == 1
    ensures rotatorAfterTick == 2 && modalAfterTick == 0
  {
    var show := new Slideshow(ThreeImages());
    show.Tick();
    SeedIsShownSlide(show);
    var page := new Page();
    var card := Card(true, Some("Day 1"), Some("Rice terraces"), Gallery(show));
    var r := page.OnCardClick(card, [{"slideshow-image"}, {"slideshow-container"}, {"photo-card"}]);
    var m := r.value;
    m.Prev();
    rotatorAfterModalPrev := show.currentIndex;
    show.Tick();
    rotatorAfterTick := show.currentIndex;
    modalAfterTick := m.index;
  }

  /** A click on a dot of the card's slideshow does not open a lightbox. */
  method DotClickDoesNotOpen() returns (didOpen: bool, attached: nat)
    ensures !didOpen && attached == 0
  {
    var show := new Slideshow(ThreeImages());
    var page := new Page();
    var card := Card(true, Some("Day 1"), Some("Rice terraces"), Gallery(show));
    var r := page.OnCardClick(card, [{"dot", "active"}, {"slideshow-dots"}, {"slideshow-container"}, {"photo-card"}]);
    didOpen := r.Some?;
    attached := |page.overlays|;
  }

  /**
   * Two cards opened one after the other stack two overlays; closing the
   * first unlocks scrolling while the second is still attached.
   */
  method StackedLightboxes() returns (attached: nat, overflowAfterFirstClose: string, remaining: nat)
    ensures attached == 2
    ensures overflowAfterFirstClose == ""
    ensures remaining == 1
  {
    var page := new Page();
    var card := Card(true, Some("Day 2"), Some("Market"), Single(Some(Slide("market.jpg", "Market"))));
    var r1 := page.ShowPhotoModal(card);
    var r2 := page.ShowPhotoModal(card);
    attached := |page.overlays|;
    var _ := r1.value.OnCloseClick(CloseIcon);
    overflowAfterFirstClose := page.overflow;
    var _ := page.FireRemoval();
    remaining := |page.overlays|;
  }

  /**
   * Clicking the backdrop again while the overlay fades out schedules a
   * second removal; when it fires the overlay is already gone and removeChild throws.
   */
  method CloseTwice() returns (first: Outcome, second: Outcome)
    ensures first == Done && second == Threw
  {
    var page := new Page();
    var card := Card(true, Some("Day 3"), Some("Beach"), Single(None));
    var r := page.ShowPhotoModal(card);
    var _ := r.value.OnCloseClick(Backdrop(true));
    var _ := r.value.OnCloseClick(Backdrop(true));
    first := page.FireRemoval();
    second := page.FireRemoval();
  }
}
