/**
 * assets/js/main.js: the menu toggle, the scroll handler that marks the
 * link of the section reached, and the nav-link click that closes the menu.
 */
module MainNav {
  import opened Dom

  /** The id the scroll handler settles on at scroll position scrollY. */
  function ReachedSectionId(sections: seq<Element>, scrollY: int): (current: string)
    ensures (forall k :: 0 <= k < |sections| ==> scrollY < sections[k].top - 390) ==> current == ""
    ensures forall k :: 0 <= k < |sections| && scrollY >= sections[k].top - 390 &&
                        (forall j :: k < j < |sections| ==> scrollY < sections[j].top - 390) ==>
                          current == AttrText(sections[k].id)
  {
    LastMatchingIdIsLast(sections, Reached(scrollY));
    assert forall k :: 0 <= k < |sections| ==> (Matches(Reached(scrollY), sections[k]) <==> scrollY >= sections[k].top - 390);
    LastMatchingId(sections, Reached(scrollY))
  }

  /** The handler reads each section's height but never uses it: only ids and tops decide. */
  lemma {:induction false} SelectionIgnoresHeight(a: seq<Element>, b: seq<Element>, scrollY: int)
    requires |a| == |b|
    requires forall k :: 0 <= k < |a| ==> a[k].id == b[k].id && a[k].top == b[k].top
    ensures ReachedSectionId(a, scrollY) == ReachedSectionId(b, scrollY)
  {
    if |a| > 0 {
      var n := |a| - 1;
      SelectionIgnoresHeight(a[..n], b[..n], scrollY);
    }
  }

  /** One link after `remove('active')` and, if its class list then contains current, `add('active')`. */
  function MarkByClass(link: NavLink, current: string): (r: NavLink)
    ensures r.href == link.href
    ensures r.classes - {"active"} == link.classes - {"active"}
    ensures "active" in r.classes <==> current in link.classes && current != "active"
  {
    var removed := link.classes - {"active"};
    link.(classes := SetToken(removed, "active", current in removed))
  }

  /** All links after the scroll handler's second loop. */
  function MarkAllByClass(links: seq<NavLink>, current: string): (r: seq<NavLink>)
    ensures |r| == |links|
    ensures forall k :: 0 <= k < |links| ==>
      && r[k].href == links[k].href
      && r[k].classes - {"active"} == links[k].classes - {"active"}
      && ("active" in r[k].classes <==> current in links[k].classes && current != "active")
  {
    seq(|links|, k requires 0 <= k < |links| => MarkByClass(links[k], current))
  }

  /** Class tokens are never empty, so when no section is reached no link stays active. */
  lemma NoActiveLinkWithoutSection(links: seq<NavLink>)
    requires forall k :: 0 <= k < |links| ==> "" !in links[k].classes
    ensures forall k :: 0 <= k < |links| ==> "active" !in MarkAllByClass(links, "")[k].classes
  {
  }

  /** The window's scroll listener. */
  method OnScroll(sections: seq<Element>, links: array<NavLink>, scrollY: int)
    modifies links
    ensures links[..] == MarkAllByClass(old(links[..]), ReachedSectionId(sections, scrollY))
  {
    var current := ScanSections(sections, Reached(scrollY));
    for i := 0 to links.Length
      invariant forall k :: 0 <= k < i ==> links[k] == MarkByClass(old(links[k]), current)
      invariant forall k :: i <= k < links.Length ==> links[k] == old(links[k])
    {
      links[i] := links[i].(classes := links[i].classes - {"active"});
      if current in links[i].classes {
        links[i] := links[i].(classes := links[i].classes + {"active"});
      }
    }
  }

  /** `classList.toggle(token)`. */
  function Toggle(classes: set<string>, token: string): (r: set<string>)
    ensures token in r <==> token !in classes
    ensures r - {token} == classes - {token}
  {
    SetToken(classes, token, token !in classes)
  }

  /** Toggling twice restores the class list. */
  lemma ToggleTwiceRestores(classes: set<string>, token: string)
    ensures Toggle(Toggle(classes, token), token) == classes
  {
  }

  /** `classList.remove("show")`: the menu closes and every other class stays. */
  function Hide(classes: set<string>): (r: set<string>)
    ensures "show" !in r
    ensures r + ({"show"} * classes) == classes
  {
    classes - {"show"}
  }

  /** Closing is idempotent: a second nav-link click changes nothing. */
  lemma HideIsIdempotent(classes: set<string>)
    ensures Hide(Hide(classes)) == Hide(classes)
  {
  }

  /** The element #nav-menu: its class list, where "show" means the menu is open. */
  class NavMenu {
    var classes: set<string>

    constructor (classes: set<string>)
      ensures this.classes == classes
    {
      this.classes := classes;
    }

    /** A click on #nav-toggle. */
    method ToggleClick()
      modifies this
      ensures classes == Toggle(old(classes), "show")
    {
      if "show" in classes {
        classes := classes - {"show"};
      } else {
        classes := classes + {"show"};
      }
    }

    /** A click on any nav link. */
    method LinkClick()
      modifies this
      ensures classes == Hide(old(classes))
    {
      classes := classes - {"show"};
    }
  }
}
