/**
 * The product catalog page: `showCategory` (a category pill was clicked) and
 * the `input` handler that `setupSearch` attaches to the search box, as pure
 * transformers of a page state that records each card's visibility, the
 * pills' active flags and the search box's value.
 */
module Catalog {
  import opened Wrappers
  import opened Text

  /** The inline `display` a card's style carries: none yet, `block` or `none`. */
  datatype Display = Unstyled | Block | Hidden

  /**
   * One `.product-card`. `category` is its `data-category` attribute; `title`,
   * `description` and `categoryLabel` are the texts of its `.product-title`,
   * `.product-description` and `.product-category` children (absent when the
   * child is missing); `chips` are the texts of its `.spec-chip` children.
   * `display` and `stagger` are what the handlers write: the inline display
   * and the position in the reveal order of the last `showCategory` that
   * revealed the card (its animation delay is a tenth of a second per step).
   */
  datatype Card = Card(
    category: Option<string>,
    title: Option<string>,
    description: Option<string>,
    categoryLabel: Option<string>,
    chips: seq<string>,
    display: Display,
    stagger: Option<nat>)

  /** One `.category-pill`: its `data-category` attribute and whether it has the `active` class. */
  datatype Pill = Pill(category: Option<string>, active: bool)

  /** The page: the cards and pills in document order, and the search box's value (`None` when there is no `#searchInput`). */
  datatype Page = Page(cards: seq<Card>, pills: seq<Pill>, query: Option<string>)

  /** A card is on screen unless a handler set its display to `none`. */
  predicate Visible(c: Card) {
    c.display != Hidden
  }

  /** Two cards that differ at most in what the handlers write. */
  predicate SameContent(a: Card, b: Card) {
    && a.category == b.category && a.title == b.title && a.description == b.description
    && a.categoryLabel == b.categoryLabel && a.chips == b.chips
  }

  predicate AtMostOneActive(pills: seq<Pill>) {
    forall i, j :: 0 <= i < |pills| && 0 <= j < |pills| && pills[i].active && pills[j].active ==> i == j
  }

  // ----- showCategory -----------------------------------------------------------

  /** The card's `data-category` is exactly `category` (case-sensitive, untrimmed). */
  predicate InCategory(c: Card, category: string) {
    c.category == Some(category)
  }

  /** The number of cards of `category` in `cards`. */
  function CountIn(cards: seq<Card>, category: string): nat {
    if |cards| == 0 then 0
    else CountIn(cards[..|cards| - 1], category) + (if InCategory(cards[|cards| - 1], category) then 1 else 0)
  }

  /**
   * The per-card loop of `showCategory`, resumed with `count` cards already
   * revealed: each card of the category is shown with the next reveal index,
   * every other card is hidden and keeps its earlier reveal index.
   */
  function Reveal(cards: seq<Card>, category: string, count: nat): (r: seq<Card>)
    ensures |r| == |cards|
    decreases |cards|
  {
    if |cards| == 0 then []
    else
      var c := cards[0];
      var shown := InCategory(c, category);
      var head := if shown then c.(display := Block, stagger := Some(count)) else c.(display := Hidden);
      [head] + Reveal(cards[1..], category, if shown then count + 1 else count)
  }

  /**
   * What the loop does to card `i`: it is shown exactly when it is in the
   * category, then with the running count plus the number of cards of the
   * category before it as its reveal index; otherwise it is hidden and keeps
   * its reveal index. Its content is untouched.
   */
  lemma {:induction false} RevealCard(cards: seq<Card>, category: string, count: nat, i: nat)
    requires i < |cards|
    ensures var r := Reveal(cards, category, count)[i];
      && SameContent(r, cards[i])
      && (r.display == Block <==> InCategory(cards[i], category))
      && (r.display == Hidden <==> !InCategory(cards[i], category))
      && (InCategory(cards[i], category) ==> r.stagger == Some(count + CountIn(cards[..i], category)))
      && (!InCategory(cards[i], category) ==> r.stagger == cards[i].stagger)
    decreases i
  {
    if i == 0 {
      assert cards[..0] == [];
    } else {
      var shown := InCategory(cards[0], category);
      var next := if shown then count + 1 else count;
      RevealCard(cards[1..], category, next, i - 1);
      assert Reveal(cards, category, count)[i] == Reveal(cards[1..], category, next)[i - 1];
      assert cards[1..][i - 1] == cards[i];
      CountPrefix(cards, category, i);
    }
  }

  /** `RevealCard` for every card. */
  lemma RevealAll(cards: seq<Card>, category: string, count: nat)
    ensures var r := Reveal(cards, category, count);
      && (forall i :: 0 <= i < |cards| ==> SameContent(r[i], cards[i]))
      && (forall i :: 0 <= i < |cards| ==> (r[i].display == Block <==> InCategory(cards[i], category)))
      && (forall i :: 0 <= i < |cards| ==> (r[i].display == Hidden <==> !InCategory(cards[i], category)))
      && (forall i :: 0 <= i < |cards| && InCategory(cards[i], category) ==> r[i].stagger.Some?)
      && (forall i :: 0 <= i < |cards| && !InCategory(cards[i], category) ==> r[i].stagger == cards[i].stagger)
  {
    forall i | 0 <= i < |cards| {
      RevealCard(cards, category, count, i);
    }
  }

  /** Counting from the front: the first card contributes one when it is in the category. */
  lemma {:induction false} CountPrefix(cards: seq<Card>, category: string, i: nat)
    requires 1 <= i <= |cards|
    ensures CountIn(cards[..i], category)
         == (if InCategory(cards[0], category) then 1 else 0) + CountIn(cards[1..][..i - 1], category)
    decreases i
  {
    if i > 1 {
      CountPrefix(cards, category, i - 1);
      assert cards[..i][..i - 1] == cards[..i - 1];
      assert cards[1..][..i - 1][..i - 2] == cards[1..][..i - 2];
    } else {
      assert cards[..1][..0] == [];
    }
  }

  /**
   * `showCategory(category, element)` where `element` is pill `el`: that pill
   * becomes the only active one, exactly the cards whose `data-category` is
   * `category` are shown, and the search box (if any) is emptied. Nothing
   * else about a card changes.
   */
  function ShowCategory(p: Page, category: string, el: nat): (q: Page)
    requires el < |p.pills|
    ensures |q.pills| == |p.pills|
    ensures forall i :: 0 <= i < |q.pills| ==> q.pills[i].category == p.pills[i].category
    ensures forall i :: 0 <= i < |q.pills| ==> (q.pills[i].active <==> i == el)
    ensures |q.cards| == |p.cards|
    ensures forall i :: 0 <= i < |q.cards| ==> SameContent(q.cards[i], p.cards[i])
    ensures forall i :: 0 <= i < |q.cards| ==> (Visible(q.cards[i]) <==> InCategory(p.cards[i], category))
    ensures forall i :: 0 <= i < |q.cards| && InCategory(p.cards[i], category) ==> q.cards[i].stagger.Some?
    ensures forall i :: 0 <= i < |q.cards| && !InCategory(p.cards[i], category) ==>
      q.cards[i].stagger == p.cards[i].stagger
    ensures q.query == (if p.query.Some? then Some("") else None)
  {
    var pills := seq(|p.pills|, i requires 0 <= i < |p.pills| => p.pills[i].(active := i == el));
    var cards := Reveal(p.cards, category, 0);
    RevealAll(p.cards, category, 0);
    var query := if p.query.Some? then Some("") else None;
    Page(cards, pills, query)
  }

  /** The k-th card shown by `showCategory`, counting from zero in document order, gets reveal index k. */
  lemma ShowCategoryStagger(p: Page, category: string, el: nat, i: nat)
    requires el < |p.pills| && i < |p.cards| && InCategory(p.cards[i], category)
    ensures ShowCategory(p, category, el).cards[i].stagger == Some(CountIn(p.cards[..i], category))
  {
    RevealCard(p.cards, category, 0, i);
  }

  /** The cards `showCategory` shows carry reveal indices below the number of cards of the category. */
  lemma ShowCategoryStaggerBound(p: Page, category: string, el: nat, i: nat)
    requires el < |p.pills| && i < |p.cards|
    requires Visible(ShowCategory(p, category, el).cards[i])
    ensures ShowCategory(p, category, el).cards[i].stagger.Some?
    ensures ShowCategory(p, category, el).cards[i].stagger.value < CountIn(p.cards, category)
  {
    ShowCategoryStagger(p, category, el, i);
    CountStep(p.cards, category, i);
    CountMonotone(p.cards, category, i + 1, |p.cards|);
    assert p.cards[..|p.cards|] == p.cards;
  }

  /** Of two shown cards, the earlier in document order has the smaller reveal index. */
  lemma ShowCategoryStaggerOrdered(p: Page, category: string, el: nat, i: nat, j: nat)
    requires el < |p.pills| && i < j < |p.cards|
    requires Visible(ShowCategory(p, category, el).cards[i]) && Visible(ShowCategory(p, category, el).cards[j])
    ensures ShowCategory(p, category, el).cards[i].stagger.value < ShowCategory(p, category, el).cards[j].stagger.value
  {
    ShowCategoryStagger(p, category, el, i);
    ShowCategoryStagger(p, category, el, j);
    CountStep(p.cards, category, i);
    CountMonotone(p.cards, category, i + 1, j);
  }

  /** Every reveal index below the number of cards of the category is carried by some shown card: there are no gaps. */
  lemma ShowCategoryStaggerDense(p: Page, category: string, el: nat, k: nat)
    requires el < |p.pills| && k < CountIn(p.cards, category)
    ensures exists i :: 0 <= i < |p.cards| && Visible(ShowCategory(p, category, el).cards[i])
                        && ShowCategory(p, category, el).cards[i].stagger == Some(k)
  {
    assert p.cards[..|p.cards|] == p.cards;
    var i := FindKth(p.cards, category, k, |p.cards|);
    ShowCategoryStagger(p, category, el, i);
  }

  lemma CountStep(cards: seq<Card>, category: string, i: nat)
    requires i < |cards|
    ensures CountIn(cards[..i + 1], category) == CountIn(cards[..i], category) + (if InCategory(cards[i], category) then 1 else 0)
  {
    assert cards[..i + 1][..i] == cards[..i];
  }

  /** Counting over a longer prefix never gives less. */
  lemma {:induction false} CountMonotone(cards: seq<Card>, category: string, i: nat, j: nat)
    requires i <= j <= |cards|
    ensures CountIn(cards[..i], category) <= CountIn(cards[..j], category)
    decreases j - i
  {
    if i < j {
      CountMonotone(cards, category, i, j - 1);
      CountStep(cards, category, j - 1);
    }
  }

  /** Within the first `n` cards, the card of the category preceded by exactly `k` others of it. */
  lemma {:induction false} FindKth(cards: seq<Card>, category: string, k: nat, n: nat) returns (i: nat)
    requires n <= |cards| && k < CountIn(cards[..n], category)
    ensures i < n && InCategory(cards[i], category) && CountIn(cards[..i], category) == k
    decreases n
  {
    assert n > 0;
    CountStep(cards, category, n - 1);
    if k < CountIn(cards[..n - 1], category) {
      i := FindKth(cards, category, k, n - 1);
    } else {
      i := n - 1;
    }
  }

  /** Showing the same category twice is showing it once. */
  lemma ShowCategoryIdempotent(p: Page, category: string, el: nat)
    requires el < |p.pills|
    ensures ShowCategory(ShowCategory(p, category, el), category, el) == ShowCategory(p, category, el)
  {
    var q := ShowCategory(p, category, el);
    var r := ShowCategory(q, category, el);
    forall i | 0 <= i <= |p.cards| ensures CountIn(q.cards[..i], category) == CountIn(p.cards[..i], category) {
      CountSameContent(p.cards[..i], q.cards[..i], category);
    }
    forall i | 0 <= i < |p.cards| ensures r.cards[i] == q.cards[i] {
      RevealCard(p.cards, category, 0, i);
      RevealCard(q.cards, category, 0, i);
    }
    assert r.cards == q.cards;
    assert r.pills == q.pills;
  }

  /** The count depends only on what the handlers never write. */
  lemma {:induction false} CountSameContent(a: seq<Card>, b: seq<Card>, category: string)
    requires |a| == |b| && forall i :: 0 <= i < |a| ==> SameContent(a[i], b[i])
    ensures CountIn(a, category) == CountIn(b, category)
    decreases |a|
  {
    if |a| > 0 {
      CountSameContent(a[..|a| - 1], b[..|b| - 1], category);
      assert SameContent(a[|a| - 1], b[|b| - 1]);
    }
  }

  // ----- search -------------------------------------------------------------------

  /** The first pill in document order with the `active` class: what `querySelector('.category-pill.active')` returns. */
  function FirstActive(pills: seq<Pill>): (r: Option<nat>)
    ensures r.None? <==> forall i :: 0 <= i < |pills| ==> !pills[i].active
    ensures r.Some? ==> r.value < |pills| && pills[r.value].active
    ensures r.Some? ==> forall i :: 0 <= i < r.value ==> !pills[i].active
    decreases |pills|
  {
    if |pills| == 0 then None
    else if pills[0].active then Some(0)
    else
      match FirstActive(pills[1..])
      case None => None
      case Some(i) => Some(i + 1)
  }

  /** An attribute value JavaScript treats as true: present and not the empty string. */
  predicate Truthy(v: Option<string>) {
    v.Some? && v.value != ""
  }

  /** Text of an optional child, with a missing child read as `''`. */
  function TextOf(v: Option<string>): string {
    v.GetOr("")
  }

  /** The spec chips, each lower-cased, joined with single spaces. */
  function ChipText(c: Card): string {
    Join(LowerAll(c.chips), " ")
  }

  /**
   * The match test of the search handler, as it decides it: it holds exactly
   * when `term` is a substring of one of the four lower-cased texts.
   */
  function Matches(c: Card, term: string): (b: bool)
    ensures b <==> MatchesSpec(c, term)
  {
    JoinToLower(c.chips, " ");
    || Includes(ToLower(TextOf(c.title)), term)
    || Includes(ToLower(TextOf(c.description)), term)
    || Includes(ToLower(TextOf(c.categoryLabel)), term)
    || Includes(ChipText(c), term)
  }

  /** What a match means: `term` is a substring of one of the four lower-cased texts. */
  ghost predicate MatchesSpec(c: Card, term: string) {
    || IsInfix(term, ToLower(TextOf(c.title)))
    || IsInfix(term, ToLower(TextOf(c.description)))
    || IsInfix(term, ToLower(TextOf(c.categoryLabel)))
    || IsInfix(term, ToLower(Join(c.chips, " ")))
  }

  /**
   * The per-card loop of the search handler: a card is shown exactly when
   * the term is in one of its texts and hidden otherwise; its content and
   * reveal index are left alone.
   */
  function ShowMatches(cards: seq<Card>, term: string): (r: seq<Card>)
    ensures |r| == |cards|
    ensures forall i :: 0 <= i < |cards| ==> SameContent(r[i], cards[i]) && r[i].stagger == cards[i].stagger
    ensures forall i :: 0 <= i < |cards| ==> (r[i].display == Block <==> MatchesSpec(cards[i], term))
    ensures forall i :: 0 <= i < |cards| ==> (r[i].display == Hidden <==> !MatchesSpec(cards[i], term))
  {
    seq(|cards|, i requires 0 <= i < |cards| => cards[i].(display := if Matches(cards[i], term) then Block else Hidden))
  }

  /** The term the handler searches for: the box's value lower-cased, then trimmed. */
  function Normalize(raw: string): (r: string)
    ensures r == ToLower(Trim(raw))
    ensures ToLower(r) == r
    ensures r == [] <==> Blank(raw)
  {
    TrimToLowerCommute(raw);
    ToLowerIdempotent(Trim(raw));
    ToLowerBlank(raw);
    Trim(ToLower(raw))
  }

  /**
   * The user types into the search box so that it holds `raw`, and the
   * `input` handler runs. Without a search box no handler was registered and
   * nothing happens. An empty term re-applies the first active pill's
   * category, or changes nothing when there is no active pill or it has no
   * category data; any other term shows exactly the matching cards.
   */
  function Search(p: Page, raw: string): (q: Page)
    ensures p.query.None? ==> q == p
    ensures p.query.Some? && Normalize(raw) != [] ==>
      && q.pills == p.pills && q.query == Some(raw) && |q.cards| == |p.cards|
      && forall i :: 0 <= i < |q.cards| ==>
           && SameContent(q.cards[i], p.cards[i]) && q.cards[i].stagger == p.cards[i].stagger
           && (Visible(q.cards[i]) <==> MatchesSpec(p.cards[i], Normalize(raw)))
  {
    if p.query.None? then p
    else
      var p' := p.(query := Some(raw));
      var term := Normalize(raw);
      if term == [] then
        var active := FirstActive(p'.pills);
        if active.None? then p'
        else
          var data := p'.pills[active.value].category;
          if !Truthy(data) then p' else ShowCategory(p', data.value, active.value)
      else
        var cards := ShowMatches(p'.cards, term);
        p'.(cards := cards)
  }

  /**
   * A term found in a single chip is found in the chip text; the joined text
   * also lets a term span neighbouring chips.
   */
  lemma ChipMatch(c: Card, term: string, k: nat)
    requires k < |c.chips| && IsInfix(term, ToLower(c.chips[k]))
    ensures Matches(c, term)
  {
    var lowered := LowerAll(c.chips);
    JoinContainsParts(lowered, " ", k);
    InfixTransitive(term, lowered[k], Join(lowered, " "));
  }

  /** An empty term with an active pill that has category data behaves exactly as clicking that pill. */
  lemma SearchEmptyFallsBack(p: Page, raw: string)
    requires p.query.Some? && Normalize(raw) == []
    requires FirstActive(p.pills).Some? && Truthy(p.pills[FirstActive(p.pills).value].category)
    ensures var a := FirstActive(p.pills).value;
      Search(p, raw) == ShowCategory(p, p.pills[a].category.value, a)
  {
  }

  /** An empty term with no active pill, or one without category data, changes no card and no pill. */
  lemma SearchEmptyWithoutCategory(p: Page, raw: string)
    requires p.query.Some? && Normalize(raw) == []
    requires FirstActive(p.pills).None? || !Truthy(p.pills[FirstActive(p.pills).value].category)
    ensures Search(p, raw).cards == p.cards && Search(p, raw).pills == p.pills
  {
  }

  /** Two values with the same normalized term lead to the same cards and pills. */
  lemma SearchSameTerm(p: Page, raw: string, raw': string)
    requires Normalize(raw) == Normalize(raw')
    ensures Search(p, raw).cards == Search(p, raw').cards
    ensures Search(p, raw).pills == Search(p, raw').pills
  {
  }

  /** Lower-casing then trimming makes a white-space-only value take the path of an empty one. */
  lemma SearchBlankIsEmpty(p: Page, raw: string)
    requires Blank(raw)
    ensures Search(p, raw).cards == Search(p, "").cards
    ensures Search(p, raw).pills == Search(p, "").pills
  {
    ToLowerBlank(raw);
    assert Normalize("") == [];
    SearchSameTerm(p, raw, "");
  }

  /** The search ignores case: upper-case letters in the value make no difference to what is shown. */
  lemma SearchIgnoresCase(p: Page, raw: string)
    ensures Search(p, raw).cards == Search(p, ToLower(raw)).cards
    ensures Search(p, raw).pills == Search(p, ToLower(raw)).pills
  {
    ToLowerIdempotent(raw);
    SearchSameTerm(p, raw, ToLower(raw));
  }

  /** Running the handler again on the same value changes nothing. */
  lemma SearchIdempotent(p: Page, raw: string)
    ensures Search(Search(p, raw), raw) == Search(p, raw)
  {
    if p.query.Some? && Normalize(raw) == [] {
      SearchIdempotentEmpty(p, raw);
    } else if p.query.Some? {
      SearchIdempotentTerm(p, raw);
    }
  }

  lemma SearchIdempotentEmpty(p: Page, raw: string)
    requires p.query.Some? && Normalize(raw) == []
    ensures Search(Search(p, raw), raw) == Search(p, raw)
  {
    var a := FirstActive(p.pills);
    if a.Some? && Truthy(p.pills[a.value].category) {
      var q := Search(p, raw);
      var cat := p.pills[a.value].category.value;
      assert FirstActive(q.pills) == a;
      ShowCategoryIdempotent(p.(query := Some(raw)), cat, a.value);
      assert ShowCategory(q.(query := Some(raw)), cat, a.value) == ShowCategory(q, cat, a.value);
    }
  }

  lemma SearchIdempotentTerm(p: Page, raw: string)
    requires p.query.Some? && Normalize(raw) != []
    ensures Search(Search(p, raw), raw) == Search(p, raw)
  {
    var term := Normalize(raw);
    ShowMatchesIdempotent(p.cards, term);
    assert Search(p, raw) == p.(query := Some(raw), cards := ShowMatches(p.cards, term));
  }

  /** Filtering twice with the same term is filtering once: a match never depends on the display. */
  lemma ShowMatchesIdempotent(cards: seq<Card>, term: string)
    ensures ShowMatches(ShowMatches(cards, term), term) == ShowMatches(cards, term)
  {
    var once := ShowMatches(cards, term);
    var twice := ShowMatches(once, term);
    forall i | 0 <= i < |cards| ensures twice[i] == once[i] {
      assert SameContent(once[i], cards[i]);
    }
  }

  /** Neither handler can leave two pills active. */
  lemma HandlersKeepOneActive(p: Page, raw: string, category: string, el: nat)
    requires AtMostOneActive(p.pills)
    ensures AtMostOneActive(Search(p, raw).pills)
    ensures el < |p.pills| ==> AtMostOneActive(ShowCategory(p, category, el).pills)
  {
  }
}
