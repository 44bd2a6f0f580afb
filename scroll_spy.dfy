/**
 * The scroll spy behind the navigation bar: on each scroll it picks, among the
 * tracked section ids in their listed order, the first whose element's box
 * `[offsetTop, offsetTop + offsetHeight)` contains the scroll position plus an
 * offset, and keeps the previous choice when none does. Pixel positions are
 * integers and the page's elements are a given map from id to box (an id missing
 * from the map has no element).
 */
module ScrollSpy {
  import opened Wrappers

  /** An element's `offsetTop` and `offsetHeight`. */
  datatype Box = Box(offsetTop: int, offsetHeight: int)

  const DefaultOffset := 100

  /** The ids the navigation bar tracks on the home page, in page order. */
  const HomeSectionIds := ["hero", "projects", "experience", "blog", "contact"]

  /** `scrollPosition >= offsetTop && scrollPosition < offsetTop + offsetHeight`. */
  predicate Contains(b: Box, position: int) {
    b.offsetTop <= position < b.offsetTop + b.offsetHeight
  }

  /** The `i`-th tracked id has an element and that element contains the position. */
  predicate Hit(ids: seq<string>, elements: map<string, Box>, position: int, i: nat)
    requires i < |ids|
  {
    ids[i] in elements && Contains(elements[ids[i]], position)
  }

  /** The first index from `from` on whose section contains the position, or `|ids|` when there is none. */
  function FirstHit(ids: seq<string>, elements: map<string, Box>, position: int, from: nat): (i: nat)
    requires from <= |ids|
    ensures from <= i <= |ids|
    ensures forall j :: from <= j < i ==> !Hit(ids, elements, position, j)
    ensures i < |ids| ==> Hit(ids, elements, position, i)
    decreases |ids| - from
  {
    if from == |ids| then from
    else if Hit(ids, elements, position, from) then from
    else FirstHit(ids, elements, position, from + 1)
  }

  /**
   * The section a scroll selects, if any: it exists, contains the position, and no
   * section listed before it does; `None` exactly when no tracked section contains it.
   */
  function Selected(ids: seq<string>, elements: map<string, Box>, position: int): (r: Option<string>)
    ensures r.Some? ==> r.value in ids && r.value in elements && Contains(elements[r.value], position)
    ensures r.Some? ==> exists i :: (0 <= i < |ids| && ids[i] == r.value
                                     && forall j :: 0 <= j < i ==> !Hit(ids, elements, position, j))
    ensures r.None? <==> forall j :: 0 <= j < |ids| ==> !Hit(ids, elements, position, j)
  {
    var i := FirstHit(ids, elements, position, 0);
    if i < |ids| then Some(ids[i]) else None
  }

  /** The active section after one scroll: the selected one, or the previous one when nothing is selected. */
  function NextActive(previous: string, ids: seq<string>, elements: map<string, Box>, position: int): (active: string)
    ensures Selected(ids, elements, position).None? ==> active == previous
    ensures Selected(ids, elements, position).Some? ==> active == Selected(ids, elements, position).value
    ensures active == previous || active in ids
  {
    match Selected(ids, elements, position)
    case None => previous
    case Some(id) => id
  }

  /** One scroll event: the scroll offset `window.scrollY` and the page's elements at that moment. */
  datatype ScrollEvent = ScrollEvent(scrollY: int, elements: map<string, Box>)

  /** The active section after a run of scroll events, starting from `active`. */
  function ActiveAfter(active: string, ids: seq<string>, offset: int, events: seq<ScrollEvent>): string
    decreases |events|
  {
    if events == [] then active
    else ActiveAfter(NextActive(active, ids, events[0].elements, events[0].scrollY + offset), ids, offset, events[1..])
  }

  /** Whatever the scrolling, the active section is the initial `""` or one of the tracked ids. */
  lemma {:induction false} ActiveAfterIsTracked(ids: seq<string>, offset: int, events: seq<ScrollEvent>, active: string)
    requires active == "" || active in ids
    ensures var r := ActiveAfter(active, ids, offset, events); r == "" || r in ids
    decreases |events|
  {
    if events != [] {
      var next := NextActive(active, ids, events[0].elements, events[0].scrollY + offset);
      ActiveAfterIsTracked(ids, offset, events[1..], next);
    }
  }

  /** With no tracked ids nothing is ever selected, so the active section stays as it started. */
  lemma {:induction false} NoIdsKeepsActive(offset: int, events: seq<ScrollEvent>, active: string)
    ensures ActiveAfter(active, [], offset, events) == active
    decreases |events|
  {
    if events != [] {
      NoIdsKeepsActive(offset, events[1..], active);
    }
  }

  /** A tracked id that never has an element never becomes active. */
  lemma {:induction false} MissingNeverActive(ids: seq<string>, offset: int, events: seq<ScrollEvent>, active: string, id: string)
    requires active != id
    requires forall k :: 0 <= k < |events| ==> id !in events[k].elements
    ensures ActiveAfter(active, ids, offset, events) != id
    decreases |events|
  {
    if events != [] {
      var next := NextActive(active, ids, events[0].elements, events[0].scrollY + offset);
      assert id !in events[0].elements;
      MissingNeverActive(ids, offset, events[1..], next, id);
    }
  }

  /** `isHomePage ? sectionIds : []`: the home sections on `/` (or an empty path), none elsewhere. */
  function NavSectionIds(pathname: string): (ids: seq<string>)
    ensures pathname == "/" || pathname == "" ==> ids == HomeSectionIds
    ensures pathname != "/" && pathname != "" ==> ids == []
  {
    if pathname == "/" || pathname == "" then HomeSectionIds else []
  }

  /** Away from the home page the navigation bar never highlights a section. */
  lemma OffHomeNothingActive(pathname: string, events: seq<ScrollEvent>)
    requires pathname != "/" && pathname != ""
    ensures ActiveAfter("", NavSectionIds(pathname), DefaultOffset, events) == ""
  {
    NoIdsKeepsActive(DefaultOffset, events, "");
  }

  /** The hook's state for one list of ids and one offset. */
  class SectionSpy {
    var activeSection: string
    const sectionIds: seq<string>
    const offset: int

    /** The active section is `""` until a scroll selects one of the tracked ids. */
    predicate Valid()
      reads this
    {
      activeSection == "" || activeSection in sectionIds
    }

    /** `useState('')`: nothing is active at first. */
    constructor(sectionIds: seq<string>, offset: int)
      ensures this.sectionIds == sectionIds && this.offset == offset
      ensures activeSection == ""
      ensures Valid()
    {
      this.sectionIds := sectionIds;
      this.offset := offset;
      activeSection := "";
    }

    /**
     * `handleScroll`: scan the ids in order, skip those without an element, and make
     * the first whose box contains `scrollY + offset` active; when none does the
     * active section is left as it was.
     */
    method HandleScroll(scrollY: int, elements: map<string, Box>)
      requires Valid()
      modifies this
      ensures Valid()
      ensures activeSection == NextActive(old(activeSection), sectionIds, elements, scrollY + offset)
    {
      var scrollPosition := scrollY + offset;
      var i := 0;
      while i < |sectionIds|
        invariant i <= |sectionIds|
        invariant activeSection == old(activeSection)
        invariant i <= FirstHit(sectionIds, elements, scrollPosition, 0)
      {
        var sectionId := sectionIds[i];
        if sectionId in elements {
          var element := elements[sectionId];
          if scrollPosition >= element.offsetTop && scrollPosition < element.offsetTop + element.offsetHeight {
            assert Hit(sectionIds, elements, scrollPosition, i);
            assert FirstHit(sectionIds, elements, scrollPosition, 0) == i;
            activeSection := sectionId;
            break;
          }
        }
        i := i + 1;
      }
    }
  }
}
