/**
 * The page as plain values: the elements the scripts read (sections and
 * other targets, with their geometry), the navigation links, the project
 * cards and the filter buttons. A DOM attribute that may be absent is an
 * Option; the scripts stringify an absent attribute as "null".
 */
module Dom {

  datatype Option<T> = None | Some(value: T)

  /** An element with an `id` attribute and its layout geometry (offsetTop, clientHeight). */
  datatype Element = Element(id: Option<string>, top: int, height: int)

  /** A navigation link: its `href` attribute and its class list. */
  datatype NavLink = NavLink(href: Option<string>, classes: set<string>)

  /** A project card: its class list and whether its style shows it (display 'block' or 'none'). */
  datatype Card = Card(classes: set<string>, visible: bool)

  /** A filter button: its `data-filter` attribute and whether it carries the class 'active'. */
  datatype FilterButton = FilterButton(filter: Option<string>, active: bool)

  /** The string a script sees when it concatenates or tests an attribute value (null becomes "null"). */
  function AttrText(a: Option<string>): (s: string)
    ensures a.Some? ==> s == a.value
    ensures a.None? ==> s == "null"
    ensures s == "null" <==> a == None || a == Some("null")
  {
    match a
    case Some(v) => v
    case None => "null"
  }

  /** A class list after `classList.remove(token)` followed, when `on`, by `classList.add(token)`. */
  function SetToken(classes: set<string>, token: string, on: bool): (r: set<string>)
    ensures token in r <==> on
    ensures r - {token} == classes - {token}
  {
    if on then classes + {token} else classes - {token}
  }

  /**
   * The position tests the two scroll handlers apply to a section:
   * InWindow(pos) holds of a section that contains pos (script.js),
   * Reached(scrollY) of a section whose top is at most 390 below scrollY (main.js).
   */
  datatype Rule = InWindow(pos: int) | Reached(scrollY: int)

  /** main.js counts a section as reached once scrollY is at most this far above its top. */
  const RevealOffset := 390

  predicate Matches(rule: Rule, e: Element)
  {
    match rule
    case InWindow(pos) => e.top <= pos < e.top + e.height
    case Reached(scrollY) => scrollY >= e.top - RevealOffset
  }

  /** The id of the last section, in document order, that the rule selects; "" when none does. */
  function LastMatchingId(sections: seq<Element>, rule: Rule): string
  {
    if |sections| == 0 then ""
    else if Matches(rule, sections[|sections| - 1]) then AttrText(sections[|sections| - 1].id)
    else LastMatchingId(sections[..|sections| - 1], rule)
  }

  predicate NoneMatchAfter(sections: seq<Element>, rule: Rule, k: nat)
  {
    forall j :: k < j < |sections| ==> !Matches(rule, sections[j])
  }

  /** LastMatchingId picks the last selected section, and "" exactly when no section is selected. */
  lemma {:induction false} LastMatchingIdIsLast(sections: seq<Element>, rule: Rule)
    ensures (forall k :: 0 <= k < |sections| ==> !Matches(rule, sections[k])) ==>
              LastMatchingId(sections, rule) == ""
    ensures forall k :: 0 <= k < |sections| && Matches(rule, sections[k]) && NoneMatchAfter(sections, rule, k) ==>
              LastMatchingId(sections, rule) == AttrText(sections[k].id)
  {
    if |sections| > 0 {
      var n := |sections| - 1;
      var init := sections[..n];
      LastMatchingIdIsLast(init, rule);
      if Matches(rule, sections[n]) {
        // the last section is selected, so no earlier one is the last selected
        forall k | 0 <= k < |sections| && NoneMatchAfter(sections, rule, k)
          ensures k == n
        {
          if k < n {
            assert false;
          }
        }
      } else {
        assert LastMatchingId(sections, rule) == LastMatchingId(init, rule);
        forall k | 0 <= k < n && NoneMatchAfter(sections, rule, k)
          ensures NoneMatchAfter(init, rule, k)
        {
          assert forall j :: k < j < n ==> init[j] == sections[j];
        }
        assert forall k :: 0 <= k < n ==> init[k] == sections[k];
      }
    }
  }

  /** The `forEach` over the sections that reassigns `current` whenever a section matches. */
  method ScanSections(sections: seq<Element>, rule: Rule) returns (current: string)
    ensures current == LastMatchingId(sections, rule)
  {
    current := "";
    for i := 0 to |sections|
      invariant current == LastMatchingId(sections[..i], rule)
    {
      assert sections[..i + 1][..i] == sections[..i];
      if Matches(rule, sections[i]) {
        current := AttrText(sections[i].id);
      }
    }
    assert sections[..|sections|] == sections;
  }
}
