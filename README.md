# Portfolio page interactivity, modelled in Dafny

This is a model of the deterministic part of a personal portfolio site's client-side scripts.
Two scripts are covered:

- `script.js`:
  - the hero-title typewriter;
  - scroll-spy highlighting of the navigation link for the section in view;
  - smooth scrolling to a link's target below the fixed header;
  - arrow-key movement between navigation links;
  - project filtering.
- `assets/js/main.js`:
  - the menu toggle;
  - the scroll handler that marks the link of the last section reached;
  - the nav-link click that closes the menu.

The DOM is modelled as plain values (module `Dom`):

- An element is `(id, top, height)`: the `id` attribute, `offsetTop` and `clientHeight`.
- A navigation link is `(href, class set)`.
- A project card is `(class set, visible flag)`.
- A filter button is `(data-filter, active flag)`.
- A missing attribute is `None`. The scripts see `null` there, and `null` turns into the string `"null"` when it is concatenated or passed to `classList.contains`. `Dom.AttrText` models that.

Handlers that change the page in place are methods over `array`s of these records. They loop as the source's `forEach` loops do. Each method is proved equal to a specification function, and the properties are lemmas about those functions. The typewriter and the menu are classes whose fields the methods update.

Files and modules:

- `dom.dfy` (`Dom`): the records, together with the section scan both scroll handlers share. The scan keeps the last section that passes a position test:
  - `InWindow` for `script.js`;
  - `Reached` for `main.js`.
- `typewriter.dfy` (`Typewriter`): the `TypeWriter` class, its pure step function `Step` and the lemmas about it. `type()` re-arms itself with `setTimeout`. Here a tick instead records the delay it would schedule, and `Run` iterates ticks.
- `navigation.dfy` (`Navigation`): `updateActiveSection`, `smoothScroll` and the arrow-key branch of the `keydown` handler.
- `filtering.dfy` (`ProjectFilter`): `filterProjects`.
- `main_nav.dfy` (`MainNav`): the `main.js` scroll handler and the `#nav-menu` class list.

Behaviours taken from the code that a casual reading might miss:

- The `TypeWriter` constructor runs its first tick before `isDeleting` is assigned. The field is `undefined` then, which reads as false. The constructor then sets it to false. This override matters only when the first word has at most one character. A one-character first word is therefore shown in full twice, with the `wait` pause each time.
- In `main.js` the handler removes `active` before it tests `classList.contains(current)`. A section whose id is `active` therefore never activates a link.
- The arrow keys find the active link's position by its `href` (`findIndex`). With two links sharing an href, the movement starts from the first of them.
- `filterProjects` receives the button's `data-filter`, which may be null. A null category then shows cards that have the class `null` and activates buttons that have no `data-filter`.

The page-flip book navigator is not part of this model. Its scripts are not among the modelled sources, so the model follows the two scripts above.

## Model

| member | source | states |
|---|---|---|
| `Dom.AttrText` | script.js:128 | a present attribute reads as its value and a missing one as `"null"`, the string JavaScript makes of `null` in `'#' + current` and `classList.contains`; so a missing attribute is indistinguishable from the value `"null"` and from nothing else |
| `Dom.SetToken` | script.js:127-130 | `remove(token)` then an optional `add(token)`: token present iff added, every other class kept |
| `Dom.LastMatchingIdIsLast` | script.js:117-124 | the section scan yields the id of the last section, in document order, that passes the position test, and `""` when none passes |
| `Dom.ScanSections` | script.js:114-124 | the `forEach` that reassigns `current` computes exactly `LastMatchingId` (loop invariant over the prefix scanned) |
| `Typewriter.CurrentWord` | script.js:149-150 | the word typed is one of the words, and while `wordIndex` is below the list length it is the word at `wordIndex` |
| `Typewriter.CurrentWordWraps` | script.js:149-150 | the counter wraps: `wordIndex + length` selects the same word as `wordIndex` |
| `Typewriter.Prefix` | script.js:152-156 | `substring(0, n)` is a prefix of the word whose length is n clamped into [0, length] |
| `Typewriter.Step` | script.js:148-175 | after every tick `txt` is a prefix of the current word, and `wordIndex` stays or grows by one |
| `Typewriter.Run` | script.js:174 | n ticks of the `setTimeout` chain advance `wordIndex` by at most n, and after at least one tick `txt` is a prefix of the current word |
| `Typewriter.Render` | script.js:158 | the markup is the `<span class="txt">` wrapper and holds exactly `txt` between its tags |
| `Typewriter.TypingTick` | script.js:155-167 | a typing tick appends the word's next character; it turns to deleting with delay `wait` exactly when the word is complete, and otherwise waits 100 |
| `Typewriter.DeletingTick` | script.js:152-172 | a deleting tick drops the last character; on reaching `""` it stops deleting, advances `wordIndex` by one and waits 500; otherwise it waits 50 |
| `Typewriter.WordIndexAdvancesOnlyWhenCleared` | script.js:165-172 | `wordIndex` changes iff the tick was deleting and left `""` |
| `Typewriter.RunAdd` | script.js:174 | consecutive ticks compose: a+b ticks are a ticks followed by b ticks |
| `Typewriter.RunKeepsPrefix` | script.js:148-175 | from a consistent state, any number n of ticks keeps `txt` a prefix of the current word and advances `wordIndex` by at most n |
| `Typewriter.TypesWholeWord` | script.js:155-167 | from the first k characters, |w|-k typing ticks complete the word and switch to deleting |
| `Typewriter.DeletesWholeWord` | script.js:152-171 | from the first k >= 1 characters while deleting, k ticks clear the text, stop deleting and select the next word |
| `Typewriter.FullCycle` | script.js:148-175 | from `""` in typing mode, a word of length L >= 1 is typed, deleted and left after 2L ticks, and an empty word after 2 |
| `Typewriter.TypeThenDelete` | script.js:148-175 | from `""` in typing mode, a word of length L >= 1 is typed and deleted in L + L ticks, which leave `""` at the next word in typing mode |
| `Typewriter.FirstTickFlipsOnlyShortWords` | script.js:138-145 | the constructor's first tick sets `isDeleting` iff the first word has at most one character |
| `Typewriter.OneCharFirstWordWaitsTwice` | script.js:144-145 | for a one-character first word, the first two ticks both show the whole word and both schedule `wait` |
| `Typewriter.TypeWriter.constructor` | script.js:138-146 | starts from `""` at word 0, runs one tick with `isDeleting` false, then forces `isDeleting` to false; `wait` defaults to 3000 |
| `Typewriter.TypeWriter.Type` | script.js:148-175 | one `type()` call: the new fields and the scheduled delay are those of `Step`, the element shows `Render(txt)`, and the prefix invariant is kept |
| `Navigation.ActiveSectionId` | script.js:114-124 | `current` is the id of the last section with `top <= scrollY + 100 < top + height`, and `""` when no section contains that point |
| `Navigation.MarkByHref` | script.js:126-131 | after the link loop, a link is active iff its href equals `'#' + current`; hrefs and the other classes are unchanged |
| `Navigation.AtMostOneActive` | script.js:126-131 | with distinct hrefs, at most one link is active afterwards |
| `Navigation.UpdateActiveSection` | script.js:113-132 | the links become `MarkByHref` of the old links and the last section containing `scrollY + 100` |
| `Navigation.QuerySelector` | script.js:69 | an id selector finds the first element whose id it names, or nothing |
| `Navigation.SmoothScroll` | script.js:68-80 | the requested scroll top is the first matching element's `offsetTop - 80`; nothing is requested iff no element matches |
| `Navigation.JsRemainder` | script.js:366-368 | JavaScript's `%`: for a non-negative dividend the mathematical remainder; for a negative one the value in (-n, 0] that differs from the dividend by a multiple of n |
| `Navigation.ArrowIndex` | script.js:364-369 | from an index in [0, n) both keys give an index in [0, n) |
| `Navigation.ArrowIndexWraps` | script.js:364-369 | ArrowDown goes from i to i+1, and from the last link to the first; ArrowUp goes from i to i-1, and from the first link to the last |
| `Navigation.ArrowKeysInverse` | script.js:364-369 | the new index stays in [0, n) and ArrowUp undoes ArrowDown (and the reverse) |
| `Navigation.FirstActive` | script.js:359 | `.nav-link.active` selects the first link that carries `active`, or none |
| `Navigation.FindIndexByHref` | script.js:362 | `findIndex` returns the first link with the given href, or -1 |
| `Navigation.ArrowTarget` | script.js:357-369 | a target exists iff the key is ArrowDown/ArrowUp and some link is active, and the target indexes a link (which link: the two lemmas below) |
| `Navigation.ArrowStepsFromFirstSharingHref` | script.js:359-369 | with any hrefs, the keys step from the first link sharing the first active link's href to its neighbour, wrapping at both ends |
| `Navigation.ArrowStepsFromActive` | script.js:359-369 | with distinct hrefs, the arrow keys step from the active link to its neighbour, wrapping at both ends |
| `Navigation.ArrowKeyScroll` | script.js:357-374 | the handler requests a scroll only for an arrow target, at that link's `smoothScroll` position, and does request one whenever the target link's href selects an element |
| `Navigation.ArrowDownScrollsToNextSection` | script.js:357-374 | with distinct hrefs, ArrowDown from the active link scrolls to 80 px above the first element the next (wrapped) link names |
| `ProjectFilter.FilterCards` | script.js:243-250 | a card is visible iff the category is `'all'` or the card has the category as a class; its classes are unchanged |
| `ProjectFilter.MarkButtons` | script.js:253-258 | exactly the buttons whose `data-filter` equals the category are active |
| `ProjectFilter.FilterProjects` | script.js:242-259 | the cards and buttons become `FilterCards` and `MarkButtons` of their old values |
| `ProjectFilter.ClickActivatesOnlyClicked` | script.js:262-266 | the clicked button always ends active; with distinct filters it is the only active one |
| `ProjectFilter.FilterIdempotent` | script.js:242-259 | filtering twice by the same category equals filtering once |
| `ProjectFilter.LastFilterWins` | script.js:242-259 | the result depends only on the last category applied |
| `MainNav.ReachedSectionId` | assets/js/main.js:19-26 | `current` is the id of the last section with `scrollY >= offsetTop - 390`, and `""` when no section qualifies |
| `MainNav.SelectionIgnoresHeight` | assets/js/main.js:20-26 | the selected section depends only on ids and tops; the height read at line 22 plays no part |
| `MainNav.MarkByClass` | assets/js/main.js:28-33 | a link ends active iff its classes contain `current` and `current` is not `active`; other classes are unchanged |
| `MainNav.MarkAllByClass` | assets/js/main.js:28-33 | after the link loop, a link is active iff its classes contain `current` and `current` is not `active`; hrefs and the other classes are unchanged, and no link is added or dropped |
| `MainNav.NoActiveLinkWithoutSection` | assets/js/main.js:19-33 | with no section reached (`current` is `""`), no link stays active |
| `MainNav.OnScroll` | assets/js/main.js:18-34 | the links become `MarkAllByClass` of the old links and the last section with `scrollY >= offsetTop - 390` |
| `MainNav.Toggle` | assets/js/main.js:8 | `toggle` flips membership of the token and keeps every other class |
| `MainNav.ToggleTwiceRestores` | assets/js/main.js:7-9 | two toggle clicks restore the menu's class list |
| `MainNav.Hide` | assets/js/main.js:38 | after `remove("show")` the menu is closed and only `show` may have been removed |
| `MainNav.HideIsIdempotent` | assets/js/main.js:37-39 | a second nav-link click changes nothing |
| `MainNav.NavMenu.ToggleClick` | assets/js/main.js:7-9 | a toggle click sets the class list to `Toggle` of the old one |
| `MainNav.NavMenu.LinkClick` | assets/js/main.js:37-39 | a nav-link click sets the class list to `Hide` of the old one, whatever it was |

## Left out

- `Typewriter.TypeWriter.constructor`: requires a non-empty word list. With no words, `type()` reads `words[NaN]` and throws a `TypeError` inside the constructor, so no object exists; the page always passes three words.
- `Typewriter.TypeWriter.constructor`: `wait` is an integer. `parseInt(wait, 10)` of a non-integer or non-numeric argument (truncation, `NaN`) is not modelled.
- `Typewriter.Step`: text length counts Unicode scalar values. JavaScript's `length` and `substring` count UTF-16 code units. A character outside the Basic Multilingual Plane therefore takes two ticks in the source, with a lone surrogate shown in between, and one tick here. `Typewriter.FullCycle`'s 2L likewise counts scalar values. The words the page passes (script.js:182) are ASCII, where the two counts agree.
- `wordIndex` is an unbounded natural. JavaScript's number loses precision after 2^53 increments.
- Timers: the chain of `setTimeout` calls is modelled as a sequence of ticks (`Run`); wall-clock time is not. The 10 ms debouncing of the scroll handlers (script.js:419-442) is left out because it depends on timer cancellation.
- The markup written to `innerHTML` is a string; the browser's parsing of it, including any markup inside a word, is not modelled.
- Scroll positions and geometry are integers; fractional `scrollY` values are not modelled.
- `Navigation.QuerySelector` handles id selectors only (`#name`). Other selector syntax is not modelled, and neither is the `SyntaxError` an invalid selector throws (such as `#` alone or an id starting with a digit).
- `Navigation.SmoothScroll` returns the requested top. The browser's clamping to the document height and the smooth animation are not modelled.
- `ProjectFilter.FilterCards`: the `fadeInUp` animation style set on shown cards is not modelled.
- The rest of script.js is left out:
  - the loading screen (random progress and interval timers);
  - the counters (floating point, `requestAnimationFrame`);
  - the `IntersectionObserver` wiring and parallax;
  - navbar styling, floating icons, the custom cursor and the injected CSS;
  - the contact form (`alert`, `FormData`, timers) and the AOS set-up;
  - the mobile menu toggle and the Escape key (lines 50-65, 352-354);
  - the nav-link click handler (lines 83-93).
- main.js: the toggle listener is attached only when both `#nav-toggle` and `#nav-menu` exist. `MainNav.NavMenu` models the case where they do. A missing `#nav-menu` would make the nav-link click throw, and that is not modelled.
- main.js: the e-mail copy (clipboard and timer), ScrollReveal and the résumé button (`window.open`) are left out as browser I/O and third-party code.
