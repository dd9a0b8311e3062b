/**
 * The browser-side rules of the site script, reduced to the state they
 * change: the mobile menu, the FAQ accordion, the category filter buttons,
 * the blog search and the excerpt shown on a post card. The DOM is a value:
 * a class list becomes a boolean, a list of elements a sequence.
 */
module Frontend {
  import opened Optional
  import opened JsValues

  // ---------------------------------------------------------------------
  // Mobile menu
  // ---------------------------------------------------------------------

  /** The `active` class on the toggle and on the menu, and whether the page
      body has `overflow: hidden`. */
  datatype Nav = Nav(toggleActive: bool, menuActive: bool, bodyLocked: bool)

  const Closed := Nav(false, false, false)

  /** Toggle and menu agree, and the page scrolls exactly when the menu is shut. */
  predicate InStep(n: Nav) {
    n.toggleActive == n.menuActive && n.bodyLocked == n.menuActive
  }

  /** A click on the toggle flips both classes independently, then locks the
      body exactly when the menu ended up open. */
  function ToggleClick(n: Nav): (r: Nav)
    ensures r.menuActive != n.menuActive && r.toggleActive != n.toggleActive
    ensures r.bodyLocked <==> r.menuActive
  {
    Nav(!n.toggleActive, !n.menuActive, !n.menuActive)
  }

  /** A click on a menu link shuts everything, whatever the state was. */
  function LinkClick(n: Nav): (r: Nav)
    ensures !r.menuActive && !r.toggleActive && !r.bodyLocked
  {
    Closed
  }

  datatype NavEvent = Toggle | Link

  function NavRun(n: Nav, events: seq<NavEvent>): Nav
    decreases |events|
  {
    if events == [] then n
    else NavRun(if events[0] == Toggle then ToggleClick(n) else LinkClick(n), events[1..])
  }

  /** From a page load, toggle and menu never drift apart and the body is
      locked exactly while the menu is open, whatever the clicks. */
  lemma {:induction false} NavStaysInStep(n: Nav, events: seq<NavEvent>)
    requires InStep(n)
    ensures InStep(NavRun(n, events))
    decreases |events|
  {
    if events != [] {
      var next := if events[0] == Toggle then ToggleClick(n) else LinkClick(n);
      assert InStep(next);
      NavStaysInStep(next, events[1..]);
    }
  }

  /** Two toggle clicks undo each other on a page whose menu is in step. */
  lemma ToggleTwice(n: Nav)
    requires InStep(n)
    ensures ToggleClick(ToggleClick(n)) == n
  {
  }

  /** After any click at all the body lock follows the menu, even from a state
      where they disagreed. */
  lemma {:induction false} LockFollowsMenu(n: Nav, events: seq<NavEvent>)
    requires events != []
    ensures NavRun(n, events).bodyLocked == NavRun(n, events).menuActive
    decreases |events|
  {
    var next := if events[0] == Toggle then ToggleClick(n) else LinkClick(n);
    if events[1..] != [] {
      LockFollowsMenu(next, events[1..]);
    } else {
      assert NavRun(next, events[1..]) == next;
    }
  }

  // ---------------------------------------------------------------------
  // FAQ accordion and filter buttons
  // ---------------------------------------------------------------------

  /** At most one element carries `active`. */
  predicate AtMostOne(active: seq<bool>) {
    forall i, j :: 0 <= i < |active| && 0 <= j < |active| && active[i] && active[j] ==> i == j
  }

  /** A click on question `k`: every item closes, then item `k` opens again
      if it had been closed. */
  function FaqClick(items: seq<bool>, k: nat): (r: seq<bool>)
    requires k < |items|
    ensures |r| == |items|
    ensures AtMostOne(r)
    ensures r[k] == !items[k]
    ensures forall i :: 0 <= i < |r| && i != k ==> !r[i]
  {
    seq(|items|, i requires 0 <= i < |items| => i == k && !items[k])
  }

  /** Clicking an open question closes every item; clicking a closed one
      leaves it as the only open item. */
  lemma FaqOutcomes(items: seq<bool>, k: nat)
    requires k < |items|
    ensures items[k] ==> forall i :: 0 <= i < |items| ==> !FaqClick(items, k)[i]
    ensures !items[k] ==> forall i :: 0 <= i < |items| ==> (FaqClick(items, k)[i] <==> i == k)
  {
  }

  /** Clicking the same question twice returns the accordion to all closed. */
  lemma FaqClickTwice(items: seq<bool>, k: nat)
    requires k < |items|
    ensures forall i :: 0 <= i < |items| ==> FaqClick(FaqClick(items, k), k)[i] == (i == k && items[k])
  {
  }

  /** A click on filter button `k`: `active` moves to it from all others. */
  function SelectButton(buttons: seq<bool>, k: nat): (r: seq<bool>)
    requires k < |buttons|
    ensures |r| == |buttons| && AtMostOne(r) && r[k]
  {
    seq(|buttons|, i requires 0 <= i < |buttons| => i == k)
  }

  // ---------------------------------------------------------------------
  // Category filters
  // ---------------------------------------------------------------------

  /** The products, projects and blog pages all show a card when the button's
      value is `all` or equals the card's category, by strict equality: an
      absent value (`undefined`) only equals another absent one. */
  predicate Shown(filter: Option<string>, category: Option<string>) {
    filter == Some("all") || category == filter
  }

  /** The display of each card after a filter button click. */
  function ApplyFilter(filter: Option<string>, cards: seq<Option<string>>): (shown: seq<bool>)
    ensures |shown| == |cards|
    ensures filter == Some("all") ==> forall k :: 0 <= k < |shown| ==> shown[k]
    ensures forall k :: 0 <= k < |shown| ==> (shown[k] <==> Shown(filter, cards[k]))
  {
    seq(|cards|, k requires 0 <= k < |cards| => Shown(filter, cards[k]))
  }

  /** Two different category buttons never show the same card, and the button
      named after a card's category shows it. */
  lemma FiltersSeparate(f: string, g: string, category: Option<string>)
    requires f != "all" && g != "all" && f != g
    ensures !(Shown(Some(f), category) && Shown(Some(g), category))
    ensures category == Some(f) ==> Shown(Some(f), category)
  {
  }

  /** A card without a category disappears under every named filter. */
  lemma UncategorisedHidden(f: string)
    requires f != "all"
    ensures !Shown(Some(f), None)
  {
  }

  // ---------------------------------------------------------------------
  // Blog search
  // ---------------------------------------------------------------------

  /** `toLowerCase` on the ASCII letters. */
  function LowerChar(c: char): (r: char)
    ensures 'A' <= c <= 'Z' ==> r as int == c as int + 32
    ensures !('A' <= c <= 'Z') ==> r == c
    ensures !('A' <= r <= 'Z')
  {
    if 'A' <= c <= 'Z' then (c as int + 32) as char else c
  }

  function Lower(s: string): (r: string)
    ensures |r| == |s|
    ensures forall k :: 0 <= k < |s| ==> r[k] == LowerChar(s[k])
  {
    seq(|s|, k requires 0 <= k < |s| => LowerChar(s[k]))
  }

  /** Lower-casing twice is lower-casing once. */
  lemma LowerIdempotent(s: string)
    ensures Lower(Lower(s)) == Lower(s)
  {
  }

  /** `needle` occurs in `hay` at position `i`. */
  predicate OccursAt(hay: string, needle: string, i: int) {
    0 <= i && i + |needle| <= |hay| && hay[i..i + |needle|] == needle
  }

  /** `hay.includes(needle)`, scanning from the front. */
  function Includes(hay: string, needle: string): bool
    decreases |hay|
  {
    needle <= hay || (hay != [] && Includes(hay[1..], needle))
  }

  /** The scan finds an occurrence exactly when there is one. */
  lemma {:induction false} IncludesIff(hay: string, needle: string)
    ensures Includes(hay, needle) <==> exists i :: OccursAt(hay, needle, i)
    decreases |hay|
  {
    assert OccursAt(hay, needle, 0) <==> needle <= hay;
    if hay != [] {
      IncludesIff(hay[1..], needle);
      forall i | OccursAt(hay[1..], needle, i) ensures OccursAt(hay, needle, i + 1) {
        assert hay[1..][i..i + |needle|] == hay[i + 1..i + 1 + |needle|];
      }
      forall i | 1 <= i && OccursAt(hay, needle, i) ensures OccursAt(hay[1..], needle, i - 1) {
        assert hay[1..][i - 1..i - 1 + |needle|] == hay[i..i + |needle|];
      }
    }
  }

  /** What a blog card shows the search box: its heading and its paragraph. */
  datatype Card = Card(title: string, text: string)

  /** The search rule: a card stays visible when its title or paragraph,
      lower-cased, includes the lower-cased query. */
  predicate Matches(query: string, card: Card) {
    Includes(Lower(card.title), Lower(query)) || Includes(Lower(card.text), Lower(query))
  }

  function Search(query: string, cards: seq<Card>): (shown: seq<bool>)
    ensures |shown| == |cards|
    ensures forall k :: 0 <= k < |cards| ==> (shown[k] <==> Matches(query, cards[k]))
  {
    seq(|cards|, k requires 0 <= k < |cards| => Matches(query, cards[k]))
  }

  /** An empty search box shows every card. */
  lemma EmptyQueryShowsAll(cards: seq<Card>)
    ensures forall k :: 0 <= k < |cards| ==> Search("", cards)[k]
  {
    forall k | 0 <= k < |cards| ensures Search("", cards)[k] {
      assert Lower("") == [];
      assert [] <= Lower(cards[k].title);
    }
  }

  /** The search ignores the case of ASCII letters: a query and its
      lower-cased form show the same cards. */
  lemma SearchIgnoresCase(query: string, card: Card)
    ensures Matches(query, card) <==> Matches(Lower(query), card)
  {
    LowerIdempotent(query);
  }

  /** A card whose title includes the query as typed is shown. */
  lemma TitleHitShown(query: string, card: Card, i: int)
    requires OccursAt(card.title, query, i)
    ensures Matches(query, card)
  {
    var t := Lower(card.title);
    var q := Lower(query);
    assert t[i..i + |q|] == q;
    assert OccursAt(t, q, i);
    IncludesIff(t, q);
  }

  // ---------------------------------------------------------------------
  // Excerpts on post cards
  // ---------------------------------------------------------------------

  /** `excerpt || (content ? content.substring(0, width) : '')` followed by
      `...`: the home page uses width 100, the blog page width 150. */
  function Teaser(excerpt: Option<string>, content: Option<string>, width: nat): (r: string)
    ensures |r| >= 3 && r[|r| - 3..] == "..."
    ensures Truthy(excerpt) ==> r == excerpt.value + "..."
    ensures !Truthy(excerpt) && content.Some? ==>
      && |r| - 3 == (if |content.value| <= width then |content.value| else width)
      && r[..|r| - 3] == content.value[..|r| - 3]
    ensures !Truthy(excerpt) && content.None? ==> r == "..."
  {
    var lead :=
      if Truthy(excerpt) then excerpt.value
      else if Truthy(content) then content.value[..if |content.value| <= width then |content.value| else width]
      else "";
    lead + "..."
  }

  const LatestWidth: nat := 100
  const BlogWidth: nat := 150

  /** The home page and the blog page differ only for a post without an
      excerpt whose content runs past 100 characters. */
  lemma TeaserWidthsAgree(excerpt: Option<string>, content: Option<string>)
    requires Truthy(excerpt) || content.None? || |content.value| <= LatestWidth
    ensures Teaser(excerpt, content, LatestWidth) == Teaser(excerpt, content, BlogWidth)
  {
  }

  /** Lower-casing works character by character, so it keeps a suffix. */
  lemma LowerKeepsSuffix(text: string, suffix: string)
    requires |suffix| <= |text| && text[|text| - |suffix|..] == suffix
    ensures Lower(text)[|text| - |suffix|..] == Lower(suffix)
  {
    var n := |text| - |suffix|;
    forall k | 0 <= k < |suffix| ensures Lower(text)[n..][k] == Lower(suffix)[k] {
      assert text[n + k] == suffix[k];
    }
  }

  lemma LowerDots()
    ensures Lower("...") == "..."
  {
    var dots := "...";
    assert LowerChar('.') == '.';
    assert Lower(dots)[0] == dots[0] && Lower(dots)[1] == dots[1] && Lower(dots)[2] == dots[2];
  }

  /** Every rendered blog card contains `...` in its paragraph, so searching
      for `...` shows every card. */
  lemma EllipsisMatchesEveryCard(title: string, excerpt: Option<string>, content: Option<string>)
    ensures Matches("...", Card(title, Teaser(excerpt, content, BlogWidth)))
  {
    var text := Teaser(excerpt, content, BlogWidth);
    LowerKeepsSuffix(text, "...");
    LowerDots();
    var t := Lower(text);
    assert OccursAt(t, "...", |t| - 3);
    IncludesIff(t, "...");
  }
}
