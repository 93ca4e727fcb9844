/**
 * Project filtering in script.js (filterProjects and the filter buttons'
 * click handler): a card is shown when the category is 'all' or the card
 * carries the category as a class, and the buttons whose data-filter is
 * the category become the active ones.
 */
module ProjectFilter {
  import opened Dom

  const ShowAll := "all"

  /** Whether filterProjects(category) shows a card with these classes. */
  predicate Shows(category: Option<string>, classes: set<string>)
  {
    category == Some(ShowAll) || AttrText(category) in classes
  }

  /** The cards after the first loop of filterProjects. */
  function FilterCards(cards: seq<Card>, category: Option<string>): (r: seq<Card>)
    ensures |r| == |cards|
    ensures forall k :: 0 <= k < |cards| ==>
      r[k].classes == cards[k].classes &&
      (r[k].visible <==> category == Some(ShowAll) || AttrText(category) in cards[k].classes)
  {
    seq(|cards|, k requires 0 <= k < |cards| => cards[k].(visible := Shows(category, cards[k].classes)))
  }

  /** The buttons after the second loop of filterProjects. */
  function MarkButtons(buttons: seq<FilterButton>, category: Option<string>): (r: seq<FilterButton>)
    ensures |r| == |buttons|
    ensures forall k :: 0 <= k < |buttons| ==>
      r[k].filter == buttons[k].filter && (r[k].active <==> buttons[k].filter == category)
  {
    seq(|buttons|, k requires 0 <= k < |buttons| => buttons[k].(active := buttons[k].filter == category))
  }

  /** `filterProjects(category)` over the page's project cards and filter buttons. */
  method FilterProjects(category: Option<string>, cards: array<Card>, buttons: array<FilterButton>)
    modifies cards, buttons
    ensures cards[..] == FilterCards(old(cards[..]), category)
    ensures buttons[..] == MarkButtons(old(buttons[..]), category)
  {
    for i := 0 to cards.Length
      invariant forall k :: 0 <= k < i ==> cards[k] == old(cards[k]).(visible := Shows(category, old(cards[k]).classes))
      invariant forall k :: i <= k < cards.Length ==> cards[k] == old(cards[k])
      invariant buttons[..] == old(buttons[..])
    {
      if Shows(category, cards[i].classes) {
        cards[i] := cards[i].(visible := true);
      } else {
        cards[i] := cards[i].(visible := false);
      }
    }
    for i := 0 to buttons.Length
      invariant forall k :: 0 <= k < i ==> buttons[k] == old(buttons[k]).(active := old(buttons[k]).filter == category)
      invariant forall k :: i <= k < buttons.Length ==> buttons[k] == old(buttons[k])
      invariant cards[..] == FilterCards(old(cards[..]), category)
    {
      buttons[i] := buttons[i].(active := false);
      if buttons[i].filter == category {
        buttons[i] := buttons[i].(active := true);
      }
    }
  }

  predicate DistinctFilters(buttons: seq<FilterButton>)
  {
    forall a, b :: 0 <= a < b < |buttons| ==> buttons[a].filter != buttons[b].filter
  }

  /** Clicking button j filters by its data-filter; it ends active, and with distinct filters it is the only active one. */
  lemma ClickActivatesOnlyClicked(buttons: seq<FilterButton>, j: int)
    requires 0 <= j < |buttons|
    ensures MarkButtons(buttons, buttons[j].filter)[j].active
    ensures DistinctFilters(buttons) ==>
      forall k :: 0 <= k < |buttons| && k != j ==> !MarkButtons(buttons, buttons[j].filter)[k].active
  {
  }

  /** Filtering again by the same category changes nothing. */
  lemma FilterIdempotent(cards: seq<Card>, buttons: seq<FilterButton>, category: Option<string>)
    ensures FilterCards(FilterCards(cards, category), category) == FilterCards(cards, category)
    ensures MarkButtons(MarkButtons(buttons, category), category) == MarkButtons(buttons, category)
  {
  }

  /** The category decides the outcome alone: filtering by c after any other filter equals filtering by c. */
  lemma LastFilterWins(cards: seq<Card>, buttons: seq<FilterButton>, c: Option<string>, d: Option<string>)
    ensures FilterCards(FilterCards(cards, d), c) == FilterCards(cards, c)
    ensures MarkButtons(MarkButtons(buttons, d), c) == MarkButtons(buttons, c)
  {
  }
}
