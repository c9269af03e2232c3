/** The page's search box: `filterIcons` shows a card when the lower-cased
    search text occurs in its `data-name` or in its lower-cased `data-code`,
    and `updateCount` reports how many cards are shown out of `total`. */
module Search {
  import opened Text
  import HexCode
  import DisplayName
  import opened Sorting
  import opened Catalog

  /** The test of `filterIcons` for one card. */
  predicate Shows(c: Card, searchText: string) {
    var search := Lower(searchText);
    Contains(c.dataName, search) || Contains(Lower(c.hexCode), search)
  }

  /** The number of cards left visible by a search: the "Showing N" of the
      count line. */
  function VisibleCount(cards: seq<Card>, searchText: string): (n: nat)
    ensures n <= |cards|
  {
    if cards == [] then 0
    else (if Shows(cards[0], searchText) then 1 else 0) + VisibleCount(cards[1..], searchText)
  }

  /** A card is shown exactly when the lower-cased search text occurs in the
      lower-cased glyph name or in the code text; lower-casing the code is a
      no-op, since the code text has no upper-case letter. */
  lemma ShowsCard(e: Entry, searchText: string)
    ensures Shows(CardOf(e), searchText) <==>
      Occurs(Lower(e.glyphName), Lower(searchText)) || Occurs(HexCode.Code(e.codepoint), Lower(searchText))
  {
    HexCode.CodeShape(e.codepoint);
    LowerOfNoUpper(HexCode.Code(e.codepoint));
    ContainsIsOccurs(Lower(e.glyphName), Lower(searchText));
    ContainsIsOccurs(HexCode.Code(e.codepoint), Lower(searchText));
  }

  /** The empty search, which Escape resets the box to, shows every card. */
  lemma {:induction false} EmptySearchShowsAll(cards: seq<Card>)
    ensures VisibleCount(cards, "") == |cards|
  {
    if cards != [] {
      EmptySearchShowsAll(cards[1..]);
    }
  }

  /** Case does not matter: a search typed in capitals shows the same cards. */
  lemma SearchIgnoresCase(c: Card, searchText: string)
    ensures Shows(c, Upper(searchText)) == Shows(c, searchText)
  {
    LowerOfUpper(searchText);
  }

  /** Typing more characters never brings a hidden card back. */
  lemma NarrowingHides(c: Card, searchText: string, more: string)
    requires Shows(c, searchText + more)
    ensures Shows(c, searchText)
  {
    var longer, shorter := Lower(searchText + more), Lower(searchText);
    LowerAppend(searchText, more);
    ContainsPrefix(shorter, Lower(more));
    if Contains(c.dataName, longer) {
      ContainsTransitive(c.dataName, longer, shorter);
    } else {
      ContainsTransitive(Lower(c.hexCode), longer, shorter);
    }
  }

  /** ... so the visible count can only fall as the search grows. */
  lemma {:induction false} NarrowingCount(cards: seq<Card>, searchText: string, more: string)
    ensures VisibleCount(cards, searchText + more) <= VisibleCount(cards, searchText)
  {
    if cards != [] {
      NarrowingCount(cards[1..], searchText, more);
      if Shows(cards[0], searchText + more) {
        NarrowingHides(cards[0], searchText, more);
      }
    }
  }

  /** Searching for a glyph name, in any mix of cases, finds its card, and
      so does searching for its code text. */
  lemma FindsOwnNameAndCode(e: Entry)
    ensures forall q :: Lower(q) == Lower(e.glyphName) ==> Shows(CardOf(e), q)
    ensures Shows(CardOf(e), e.glyphName)
    ensures Shows(CardOf(e), Upper(e.glyphName))
    ensures Shows(CardOf(e), HexCode.Code(e.codepoint))
  {
    ContainsSelf(Lower(e.glyphName));
    SearchIgnoresCase(CardOf(e), e.glyphName);
    HexCode.CodeShape(e.codepoint);
    LowerOfNoUpper(HexCode.Code(e.codepoint));
    ContainsSelf(HexCode.Code(e.codepoint));
  }

  /** The search is on the glyph name, not on the caption: when the name
      has an underscore, typing the caption exactly as shown does not find
      the card, since the caption has a space there and neither the search
      name nor the code text has one. */
  lemma CaptionSearchMisses(e: Entry, k: nat)
    requires k < |e.glyphName| && e.glyphName[k] == '_'
    ensures !Shows(CardOf(e), DisplayName.Of(e.glyphName))
  {
    var c := CardOf(e);
    var search := Lower(DisplayName.Of(e.glyphName));
    assert search[k] == ' ' && !(search <= c.dataName) && |search| == |c.dataName| by {
      DisplayName.OfLower(e.glyphName);
      assert c.dataName[k] == '_';
    }
    assert !Contains(c.dataName, search);
    assert !Contains(Lower(c.hexCode), search) by {
      HexCode.CodeShape(e.codepoint);
      LowerOfNoUpper(c.hexCode);
      HexCode.CodeHasNoSpace(e.codepoint);
      if Contains(c.hexCode, search) {
        ContainsChars(c.hexCode, search, k);
      }
    }
  }
}
