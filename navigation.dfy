/**
 * The navigation logic of script.js: highlighting the link of the section
 * in view (updateActiveSection), scrolling to a link's target below the
 * fixed header (smoothScroll), and moving to the next or previous link
 * with the arrow keys (the keydown handler).
 */
module Navigation {
  import opened Dom
  import opened Arith

  /** The height of the fixed header that smoothScroll leaves above its target. */
  const HeaderOffset := 80

  /** updateActiveSection probes 100 px below the top of the viewport. */
  const ProbeOffset := 100

  // ---------------------------------------------------------------- active section

  /** The id updateActiveSection settles on at scroll position scrollY. */
  function ActiveSectionId(sections: seq<Element>, scrollY: int): (current: string)
    ensures (forall k :: 0 <= k < |sections| ==> !InView(sections[k], scrollY)) ==> current == ""
    ensures forall k :: 0 <= k < |sections| && InView(sections[k], scrollY) &&
                        (forall j :: k < j < |sections| ==> !InView(sections[j], scrollY)) ==>
                          current == AttrText(sections[k].id)
  {
    LastMatchingIdIsLast(sections, InWindow(scrollY + ProbeOffset));
    assert forall k :: 0 <= k < |sections| ==> (Matches(InWindow(scrollY + ProbeOffset), sections[k]) <==> InView(sections[k], scrollY));
    LastMatchingId(sections, InWindow(scrollY + ProbeOffset))
  }

  /** The probe point scrollY + 100 lies inside the section: at or below its top and above its bottom. */
  predicate InView(e: Element, scrollY: int)
  {
    e.top <= scrollY + 100 < e.top + e.height
  }

  /** One link after `remove('active')` and, if its href is '#' + current, `add('active')`. */
  function MarkLink(link: NavLink, current: string): NavLink
  {
    link.(classes := SetToken(link.classes, "active", link.href == Some("#" + current)))
  }

  /** All links after updateActiveSection's second loop. */
  function MarkByHref(links: seq<NavLink>, current: string): (r: seq<NavLink>)
    ensures |r| == |links|
    ensures forall k :: 0 <= k < |links| ==>
      && r[k].href == links[k].href
      && r[k].classes - {"active"} == links[k].classes - {"active"}
      && ("active" in r[k].classes <==> links[k].href == Some("#" + current))
  {
    seq(|links|, k requires 0 <= k < |links| => MarkLink(links[k], current))
  }

  /** When hrefs are distinct, at most one link is active after the update. */
  lemma AtMostOneActive(links: seq<NavLink>, current: string)
    requires forall j, k :: 0 <= j < k < |links| ==> links[j].href != links[k].href
    ensures var r := MarkByHref(links, current);
      forall j, k :: 0 <= j < |r| && 0 <= k < |r| && "active" in r[j].classes && "active" in r[k].classes ==> j == k
  {
  }

  /** `updateActiveSection()` on the page's sections and nav links at scroll position scrollY. */
  method UpdateActiveSection(sections: seq<Element>, links: array<NavLink>, scrollY: int)
    modifies links
    ensures links[..] == MarkByHref(old(links[..]), ActiveSectionId(sections, scrollY))
  {
    var current := ScanSections(sections, InWindow(scrollY + ProbeOffset));
    for i := 0 to links.Length
      invariant forall k :: 0 <= k < i ==> links[k] == MarkLink(old(links[k]), current)
      invariant forall k :: i <= k < links.Length ==> links[k] == old(links[k])
    {
      links[i] := links[i].(classes := links[i].classes - {"active"});
      if links[i].href == Some("#" + current) {
        links[i] := links[i].(classes := links[i].classes + {"active"});
      }
    }
  }

  // ---------------------------------------------------------------- smooth scroll

  /** The selector '#id' selects the elements whose id attribute is id. */
  predicate Selects(selector: string, e: Element)
  {
    e.id.Some? && selector == "#" + e.id.value
  }

  predicate NoneSelectedBefore(page: seq<Element>, selector: string, k: int)
  {
    forall j :: 0 <= j < k && j < |page| ==> !Selects(selector, page[j])
  }

  /** `document.querySelector(selector)` for an id selector: the index of the first element it selects, or -1. */
  function QuerySelector(page: seq<Element>, selector: string): (r: int)
    ensures -1 <= r < |page|
    ensures r >= 0 ==> Selects(selector, page[r]) && NoneSelectedBefore(page, selector, r)
    ensures r == -1 ==> NoneSelectedBefore(page, selector, |page|)
  {
    if |page| == 0 then -1
    else if Selects(selector, page[0]) then 0
    else
      var r := QuerySelector(page[1..], selector);
      if r == -1 then -1 else r + 1
  }

  /** `smoothScroll(target)`: the scroll position it requests, or None when nothing matches. */
  function SmoothScroll(page: seq<Element>, target: string): (top: Option<int>)
    ensures top.None? <==> forall k :: 0 <= k < |page| ==> !Selects(target, page[k])
    ensures forall k :: 0 <= k < |page| && Selects(target, page[k]) && NoneSelectedBefore(page, target, k) ==>
      top == Some(page[k].top - HeaderOffset)
  {
    var i := QuerySelector(page, target);
    if i < 0 then None else Some(page[i].top - HeaderOffset)
  }

  // ---------------------------------------------------------------- arrow keys

  /** JavaScript's `%`: the remainder truncates toward zero, so it takes the sign of a. */
  function JsRemainder(a: int, n: int): (r: int)
    requires n > 0
    ensures a >= 0 ==> 0 <= r < n && r == a % n
    ensures a < 0 ==> -n < r <= 0 && (a - r) % n == 0
  {
    if a >= 0 then a % n
    else
      var r := -((-a) % n);
      assert (a - r) % n == 0 by {
        var q := (-a) / n;
        assert -a == q * n + (-a) % n;
        assert a - r == (-q) * n + 0;
        ModUnique(a - r, n, -q, 0);
      }
      r
  }

  /** The index the handler moves to from currentIndex among n links. */
  function ArrowIndex(currentIndex: int, n: int, down: bool): (next: int)
    requires n > 0
    ensures 0 <= currentIndex < n ==> 0 <= next < n
  {
    if down then JsRemainder(currentIndex + 1, n) else JsRemainder(currentIndex - 1 + n, n)
  }

  /** Over n >= 1 links ArrowDown gives the next index and ArrowUp the previous one, wrapping at both ends. */
  lemma ArrowIndexWraps(i: int, n: int)
    requires 0 <= i < n
    ensures ArrowIndex(i, n, true) == if i == n - 1 then 0 else i + 1
    ensures ArrowIndex(i, n, false) == if i == 0 then n - 1 else i - 1
  {
    ModInRange(i + 1, n);
    ModInRange(i - 1 + n, n);
  }

  /** The arrow keys keep the index in [0, n), and each undoes the other. */
  lemma ArrowKeysInverse(i: int, n: int)
    requires 0 <= i < n
    ensures 0 <= ArrowIndex(i, n, true) < n && 0 <= ArrowIndex(i, n, false) < n
    ensures ArrowIndex(ArrowIndex(i, n, true), n, false) == i
    ensures ArrowIndex(ArrowIndex(i, n, false), n, true) == i
  {
    ArrowIndexWraps(i, n);
    ArrowIndexWraps(ArrowIndex(i, n, true), n);
    ArrowIndexWraps(ArrowIndex(i, n, false), n);
  }

  /** `document.querySelector('.nav-link.active')`: the first link carrying 'active', or -1. */
  function FirstActive(links: seq<NavLink>): (r: int)
    ensures -1 <= r < |links|
    ensures r >= 0 ==> "active" in links[r].classes
    ensures forall j :: 0 <= j < |links| && "active" in links[j].classes ==> 0 <= r <= j
  {
    if |links| == 0 then -1
    else if "active" in links[0].classes then 0
    else
      var r := FirstActive(links[1..]);
      if r == -1 then -1 else r + 1
  }

  /** `Array.from(navLinks).findIndex(link => link.getAttribute('href') === href)`. */
  function FindIndexByHref(links: seq<NavLink>, href: Option<string>): (r: int)
    ensures -1 <= r < |links|
    ensures r >= 0 ==> links[r].href == href
    ensures forall j :: 0 <= j < |links| && links[j].href == href ==> 0 <= r <= j
  {
    if |links| == 0 then -1
    else if links[0].href == href then 0
    else
      var r := FindIndexByHref(links[1..], href);
      if r == -1 then -1 else r + 1
  }

  /**
   * The link an arrow key leads to: None unless the key is ArrowDown or ArrowUp and some link
   * is active. The active link's position is looked up by its href, so it is the first link
   * sharing that href.
   */
  function ArrowTarget(links: seq<NavLink>, key: string): (r: Option<int>)
    ensures r.Some? <==> (key == "ArrowDown" || key == "ArrowUp") && FirstActive(links) >= 0
    ensures r.Some? ==> 0 <= r.value < |links|
  {
    if key != "ArrowDown" && key != "ArrowUp" then None
    else
      var a := FirstActive(links);
      if a < 0 then None
      else
        var i := FindIndexByHref(links, links[a].href);
        Some(ArrowIndex(i, |links|, key == "ArrowDown"))
  }

  /** With distinct hrefs, the arrow keys step from the active link to its neighbour, wrapping at both ends. */
  lemma ArrowStepsFromActive(links: seq<NavLink>, a: int, key: string)
    requires forall j, k :: 0 <= j < k < |links| ==> links[j].href != links[k].href
    requires 0 <= a < |links| && "active" in links[a].classes
    requires forall j :: 0 <= j < a ==> "active" !in links[j].classes
    requires key == "ArrowDown" || key == "ArrowUp"
    ensures key == "ArrowDown" ==> ArrowTarget(links, key) == Some(if a == |links| - 1 then 0 else a + 1)
    ensures key == "ArrowUp" ==> ArrowTarget(links, key) == Some(if a == 0 then |links| - 1 else a - 1)
  {
    assert FirstActive(links) == a;
    assert FindIndexByHref(links, links[a].href) == a;
    ArrowIndexWraps(a, |links|);
  }

  /**
   * With any hrefs, the movement starts from the first link whose href equals the first active
   * link's href, and steps to its neighbour, wrapping at both ends.
   */
  lemma ArrowStepsFromFirstSharingHref(links: seq<NavLink>, a: int, j: int, key: string)
    requires 0 <= a < |links| && "active" in links[a].classes
    requires forall i :: 0 <= i < a ==> "active" !in links[i].classes
    requires 0 <= j < |links| && links[j].href == links[a].href
    requires forall i :: 0 <= i < j ==> links[i].href != links[a].href
    ensures key == "ArrowDown" ==> ArrowTarget(links, key) == Some(if j == |links| - 1 then 0 else j + 1)
    ensures key == "ArrowUp" ==> ArrowTarget(links, key) == Some(if j == 0 then |links| - 1 else j - 1)
  {
    assert FirstActive(links) == a;
    assert FindIndexByHref(links, links[a].href) == j;
    ArrowIndexWraps(j, |links|);
  }

  /** The keydown handler's arrow-key branch: the scroll position requested, if any. */
  function ArrowKeyScroll(links: seq<NavLink>, page: seq<Element>, key: string): (top: Option<int>)
    ensures top.Some? ==> (exists k :: 0 <= k < |links| && ArrowTarget(links, key) == Some(k) &&
                                       SmoothScroll(page, AttrText(links[k].href)) == top)
    ensures ArrowTarget(links, key).None? ==> top.None?
    ensures ArrowTarget(links, key).Some? ==>
      (top.Some? <==> exists e :: 0 <= e < |page| && Selects(AttrText(links[ArrowTarget(links, key).value].href), page[e]))
  {
    match ArrowTarget(links, key)
    case None => None
    case Some(k) => SmoothScroll(page, AttrText(links[k].href))
  }

  /**
   * End to end, with distinct hrefs: ArrowDown from the first active link a scrolls to 80 px above
   * the first element that the next link (wrapping to the first) names.
   */
  lemma ArrowDownScrollsToNextSection(links: seq<NavLink>, page: seq<Element>, a: int, e: int)
    requires forall j, k :: 0 <= j < k < |links| ==> links[j].href != links[k].href
    requires 0 <= a < |links| && "active" in links[a].classes
    requires forall j :: 0 <= j < a ==> "active" !in links[j].classes
    requires var next := if a == |links| - 1 then 0 else a + 1;
      0 <= e < |page| && Selects(AttrText(links[next].href), page[e]) &&
      NoneSelectedBefore(page, AttrText(links[next].href), e)
    ensures ArrowKeyScroll(links, page, "ArrowDown") == Some(page[e].top - 80)
  {
    ArrowStepsFromActive(links, a, "ArrowDown");
  }
}
