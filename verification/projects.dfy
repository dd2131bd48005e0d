/**
 * The project filter: a bar of filter buttons (each with a `data-filter`
 * value) and a grid of project cards (each with a space-separated
 * `data-category` list). A click marks exactly the clicked button `active`
 * and gives every card the `hidden` class unless the filter value is one of
 * its categories. The page-load handler applies the same rule for `"all"`.
 */
module Projects {
  import opened JsText
  import Dom

  const All: string := "all"

  /** The card test of the click handler, with JavaScript's precedence:
      `(v === 'all' && cats.includes('all')) || cats.includes(v)`. The first
      disjunct implies the second, so a card is shown exactly when the filter
      value is one of its space-separated categories. */
  function CardShown(filterValue: string, category: string): (shown: bool)
    ensures shown <==> filterValue in Split(category, ' ')
  {
    var cats := Split(category, ' ');
    (filterValue == All && All in cats) || filterValue in cats
  }

  /** A card whose category list is `c1 c2 … ck` (no empty entries) is shown
      for exactly the filters `c1`, …, `ck`. */
  lemma ShownForListedCategories(cats: seq<string>, filterValue: string)
    requires |cats| >= 1
    requires forall c | c in cats :: ' ' !in c
    ensures CardShown(filterValue, Join(cats, ' ')) <==> filterValue in cats
  {
    SplitJoin(cats, ' ');
  }

  class FilterBar {
    /** `data-filter` of each button, in document order. */
    const filters: seq<string>
    /** `data-category` of each project card, in document order. */
    const categories: seq<string>
    /** Whether each button carries the `active` class. */
    const buttonActive: array<bool>
    /** Whether each card carries the `hidden` class. */
    const cardHidden: array<bool>

    ghost predicate Valid() {
      && buttonActive.Length == |filters|
      && cardHidden.Length == |categories|
      && buttonActive != cardHidden
    }

    /** The page as loaded: class lists as the markup gives them. */
    constructor (filters: seq<string>, categories: seq<string>,
                 activeAtLoad: seq<bool>, hiddenAtLoad: seq<bool>)
      requires |activeAtLoad| == |filters| && |hiddenAtLoad| == |categories|
      ensures Valid()
      ensures this.filters == filters && this.categories == categories
      ensures buttonActive[..] == activeAtLoad && cardHidden[..] == hiddenAtLoad
      ensures fresh(buttonActive) && fresh(cardHidden)
    {
      this.filters := filters;
      this.categories := categories;
      buttonActive := new bool[|activeAtLoad|](i requires 0 <= i < |activeAtLoad| => activeAtLoad[i]);
      cardHidden := new bool[|hiddenAtLoad|](i requires 0 <= i < |hiddenAtLoad| => hiddenAtLoad[i]);
    }

    /** `hidden` on every card exactly when it does not match `filterValue`. */
    method ApplyFilter(filterValue: string)
      requires Valid()
      modifies cardHidden
      ensures forall c | 0 <= c < cardHidden.Length :: cardHidden[c] == !CardShown(filterValue, categories[c])
    {
      var c := 0;
      while c < cardHidden.Length
        invariant 0 <= c <= cardHidden.Length
        invariant forall k | 0 <= k < c :: cardHidden[k] == !CardShown(filterValue, categories[k])
      {
        cardHidden[c] := !CardShown(filterValue, categories[c]);
        c := c + 1;
      }
    }

    /** `active` removed from every button. */
    method DeactivateAll()
      requires Valid()
      modifies buttonActive
      ensures forall j | 0 <= j < buttonActive.Length :: !buttonActive[j]
    {
      var j := 0;
      while j < buttonActive.Length
        invariant 0 <= j <= buttonActive.Length
        invariant forall k | 0 <= k < j :: !buttonActive[k]
      {
        buttonActive[j] := false;
        j := j + 1;
      }
    }

    /** The click handler of button `b`. */
    method Click(b: nat)
      requires Valid() && b < |filters|
      modifies buttonActive, cardHidden
      ensures forall j | 0 <= j < buttonActive.Length :: buttonActive[j] <==> j == b
      ensures forall c | 0 <= c < cardHidden.Length ::
                !cardHidden[c] <==> filters[b] in Split(categories[c], ' ')
    {
      DeactivateAll();
      buttonActive[b] := true;
      ApplyFilter(filters[b]);
    }

    /** The page-load handler: cards filtered for `"all"`, and `active` on the
        first button whose filter is `"all"`. Without such a button the handler
        stops with a TypeError after clearing every button; `found` is false
        then. */
    method ShowAllOnLoad() returns (found: bool)
      requires Valid()
      modifies buttonActive, cardHidden
      ensures found <==> All in filters
      ensures forall j | 0 <= j < buttonActive.Length ::
                buttonActive[j] <==> found && Dom.IsFirst(filters, All, j)
      ensures forall c | 0 <= c < cardHidden.Length ::
                !cardHidden[c] <==> All in Split(categories[c], ' ')
    {
      var allButton;
      found, allButton := Dom.FindFirst(filters, All);
      ApplyFilter(All);
      DeactivateAll();
      if found {
        buttonActive[allButton] := true;
        forall j | 0 <= j < buttonActive.Length && Dom.IsFirst(filters, All, j)
          ensures j == allButton
        {
          Dom.FirstUnique(filters, All, j, allButton);
        }
      }
    }
  }
}
