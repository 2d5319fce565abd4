// updateActiveLink of setupNavigation: on every scroll, find the
// '.day-article' the page is scrolled into and mark the '.nav-link' that
// points at it.
module NavLinks {
  import opened Slides

  /** A getAttribute result: the attribute's text, or null when the attribute is absent. */
  datatype Attr = Text(s: string) | Null

  /** One '.day-article' as laid out: its id attribute, offsetTop and clientHeight. */
  datatype Section = Section(id: Attr, offsetTop: int, clientHeight: int)

  /** scrollY lies in the section's band, which starts 100 pixels above the section. */
  predicate Contains(sec: Section, scrollY: int)
  {
    var top := sec.offsetTop - 100;
    top <= scrollY < top + sec.clientHeight
  }

  /** Section m contains scrollY and no later section does. */
  ghost predicate LastContaining(sections: seq<Section>, scrollY: int, m: int)
  {
    && 0 <= m < |sections|
    && Contains(sections[m], scrollY)
    && forall l :: m < l < |sections| ==> !Contains(sections[l], scrollY)
  }

  /** The template `#${current}`, in which a null id prints as "null". */
  function Hash(current: Attr): string
  {
    "#" + match current
      case Text(s) => s
      case Null => "null"
  }

  /**
   * The forEach over the sections: current starts as '' and takes the id
   * of every section containing scrollY, so it ends as the id of the last
   * one, or '' when there is none.
   */
  method CurrentSection(sections: seq<Section>, scrollY: int) returns (current: Attr)
    ensures (forall k :: 0 <= k < |sections| ==> !Contains(sections[k], scrollY)) ==> current == Text("")
    ensures (exists k :: 0 <= k < |sections| && Contains(sections[k], scrollY)) ==>
              exists m :: LastContaining(sections, scrollY, m) && current == sections[m].id
  {
    current := Text("");
    ghost var last := -1;
    for i := 0 to |sections|
      invariant last == -1 ==> current == Text("") && forall k :: 0 <= k < i ==> !Contains(sections[k], scrollY)
      invariant last != -1 ==> LastContaining(sections[..i], scrollY, last) && current == sections[last].id
    {
      if Contains(sections[i], scrollY) {
        current := sections[i].id;
        last := i;
      }
    }
    assert sections[..|sections|] == sections;
  }

  /** The forEach over the links: drop 'active', then add it back where href is '#' + current. */
  method MarkLinks(hrefs: seq<Attr>, active: array<bool>, current: Attr)
    requires active.Length == |hrefs|
    modifies active
    ensures forall j :: 0 <= j < |hrefs| ==> active[j] == (hrefs[j] == Text(Hash(current)))
  {
    for j := 0 to active.Length
      invariant forall m :: 0 <= m < j ==> active[m] == (hrefs[m] == Text(Hash(current)))
    {
      active[j] := false;
      if hrefs[j] == Text(Hash(current)) {
        active[j] := true;
      }
    }
  }

  /** updateActiveLink: the section scan, then the link marking. */
  method UpdateActiveLink(sections: seq<Section>, scrollY: int, hrefs: seq<Attr>, active: array<bool>)
    returns (current: Attr)
    requires active.Length == |hrefs|
    modifies active
    ensures (forall k :: 0 <= k < |sections| ==> !Contains(sections[k], scrollY)) ==> current == Text("")
    ensures (exists k :: 0 <= k < |sections| && Contains(sections[k], scrollY)) ==>
              exists m :: LastContaining(sections, scrollY, m) && current == sections[m].id
    ensures forall j :: 0 <= j < |hrefs| ==> active[j] == (hrefs[j] == Text(Hash(current)))
  {
    current := CurrentSection(sections, scrollY);
    MarkLinks(hrefs, active, current);
  }

  /** When no two links share an href, at most one link ends up active. */
  lemma {:induction false} DistinctHrefsAtMostOneActive(hrefs: seq<Attr>, flags: seq<bool>, target: Attr)
    requires |flags| == |hrefs|
    requires forall j :: 0 <= j < |hrefs| ==> flags[j] == (hrefs[j] == target)
    requires forall i, j :: 0 <= i < j < |hrefs| ==> hrefs[i] != hrefs[j]
    ensures CountActive(flags) <= 1
    decreases |flags|
  {
    if |flags| > 0 {
      var n := |flags| - 1;
      var init := flags[..n];
      if flags[n] {
        assert OnlyActive(init, -1) by {
          forall j | 0 <= j < n ensures init[j] == (j == -1) {
            assert hrefs[j] != hrefs[n];
          }
        }
        OnlyActiveCount(init, -1);
      } else {
        DistinctHrefsAtMostOneActive(hrefs[..n], init, target);
      }
    }
  }
}
