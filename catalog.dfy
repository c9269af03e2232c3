/** The card loop of `generate_cheatsheet`: the character map's items are
    sorted by glyph name, and for each one a card is appended to the page
    and the running `total` is incremented. */
module Catalog {
  import opened Text
  import HexCode
  import DisplayName
  import opened Sorting

  /** One icon card. `entry` is the item the card is made from (the icon
      glyph is `chr(entry.codepoint)`); `displayName` is the caption,
      `dataName` the `data-name` attribute, and `hexCode` both the
      `data-code` attribute and the code text shown under the caption. */
  datatype Card = Card(entry: Entry, displayName: string, dataName: string, hexCode: string)

  /** The card for one character-map item. */
  function CardOf(e: Entry): Card {
    Card(e, DisplayName.Of(e.glyphName), Lower(e.glyphName), HexCode.Code(e.codepoint))
  }

  /** The cards the page lists, in page order. */
  function Cards(cmap: seq<Entry>): seq<Card> {
    var sorted := SortByName(cmap);
    seq(|sorted|, i requires 0 <= i < |sorted| => CardOf(sorted[i]))
  }

  /** The items the cards were made from, in page order. */
  function EntriesOf(cards: seq<Card>): seq<Entry> {
    seq(|cards|, i requires 0 <= i < |cards| => cards[i].entry)
  }

  /** The card loop of `generate_cheatsheet`: walks the sorted items, builds
      one card for each and counts them. */
  method BuildCatalog(cmap: seq<Entry>) returns (cards: seq<Card>, total: nat)
    ensures total == |cmap| && |cards| == total
    ensures cards == Cards(cmap)
  {
    var sorted := SortByName(cmap);
    SortPermutation(cmap);
    total := 0;
    cards := [];
    for i := 0 to |sorted|
      invariant total == i && |cards| == i
      invariant forall k :: 0 <= k < i ==> cards[k] == CardOf(sorted[k])
    {
      var e := sorted[i];
      var hexCode := HexCode.Code(e.codepoint);
      var displayName := DisplayName.Of(e.glyphName);
      cards := cards + [Card(e, displayName, Lower(e.glyphName), hexCode)];
      total := total + 1;
    }
  }

  /** What a card states about its item: the code text is "0x" and at least
      four lower-case hexadecimal digits, exactly four below 0x10000, and
      reads back as the codepoint; the caption is as long as the glyph name,
      has spaces for its underscores and none left, and is title-cased; the
      search name is the lower-cased glyph name. */
  ghost predicate Describes(c: Card) {
    var name := c.entry.glyphName;
    && HexCode.ParseCode(c.hexCode) == HexCode.Some(c.entry.codepoint)
    && c.hexCode[..2] == "0x"
    && (forall i :: 2 <= i < |c.hexCode| ==> HexCode.IsHexDigit(c.hexCode[i]))
    && (|c.hexCode| == 6 <==> c.entry.codepoint < 0x10000)
    && |c.hexCode| >= 6
    && |c.displayName| == |name|
    && (forall i :: 0 <= i < |name| && name[i] == '_' ==> c.displayName[i] == ' ')
    && (forall i :: 0 <= i < |name| ==> c.displayName[i] != '_')
    && DisplayName.TitleCased(DisplayName.ReplaceUnderscores(name), c.displayName)
    && c.dataName == Lower(name)
    && NoUpper(c.dataName)
    && NoUpper(c.hexCode)
  }

  lemma CardOfDescribes(e: Entry)
    ensures Describes(CardOf(e))
  {
    HexCode.CodeShape(e.codepoint);
    HexCode.CodeWidth(e.codepoint);
    HexCode.CodeRoundTrip(e.codepoint);
    DisplayName.OfShape(e.glyphName);
    LowerHasNoUpper(e.glyphName);
  }

  /** One card per item, none dropped or duplicated: the cards' items are a
      permutation of the character map's items. */
  lemma CardsPermutation(cmap: seq<Entry>)
    ensures |Cards(cmap)| == |cmap|
    ensures multiset(EntriesOf(Cards(cmap))) == multiset(cmap)
  {
    SortPermutation(cmap);
    assert EntriesOf(Cards(cmap)) == SortByName(cmap);
  }

  /** The cards are in non-decreasing order of glyph name, and cards whose
      glyph names are equal keep the character map's order. */
  lemma CardsOrdered(cmap: seq<Entry>)
    ensures SortedByName(EntriesOf(Cards(cmap)))
    ensures Stable(cmap, EntriesOf(Cards(cmap)))
  {
    SortPermutation(cmap);
    assert EntriesOf(Cards(cmap)) == SortByName(cmap);
    SortSorted(cmap);
    SortStable(cmap);
  }

  /** Every card describes its item. */
  lemma CardsDescribe(cmap: seq<Entry>)
    ensures forall c :: c in Cards(cmap) ==> Describes(c)
  {
    forall c | c in Cards(cmap) ensures Describes(c) {
      CardOfDescribes(c.entry);
    }
  }

  /** A character map has one item per codepoint. */
  ghost predicate DistinctCodepoints(cmap: seq<Entry>) {
    forall i, j :: 0 <= i < j < |cmap| ==> cmap[i].codepoint != cmap[j].codepoint
  }

  /** The dictionary the items came from. */
  function AsMap(cmap: seq<Entry>): map<nat, string> {
    if cmap == [] then map[] else AsMap(cmap[1..])[cmap[0].codepoint := cmap[0].glyphName]
  }

  /** For a character map, `total` (the length of the item sequence) is the
      number of entries of the dictionary, and each item is one of them. */
  lemma {:induction false} AsMapSize(cmap: seq<Entry>)
    requires DistinctCodepoints(cmap)
    ensures |AsMap(cmap)| == |cmap|
    ensures forall e :: e in cmap ==> e.codepoint in AsMap(cmap) && AsMap(cmap)[e.codepoint] == e.glyphName
  {
    if cmap != [] {
      var t := cmap[1..];
      assert DistinctCodepoints(t);
      AsMapSize(t);
      AsMapKeys(t);
      assert cmap[0].codepoint !in AsMap(t);
      forall e | e in cmap ensures e.codepoint in AsMap(cmap) && AsMap(cmap)[e.codepoint] == e.glyphName {
        if e != cmap[0] {
          assert e in t;
        }
      }
    }
  }

  lemma {:induction false} AsMapKeys(cmap: seq<Entry>)
    ensures forall k :: k in AsMap(cmap) ==> exists i :: 0 <= i < |cmap| && cmap[i].codepoint == k
  {
    if cmap != [] {
      AsMapKeys(cmap[1..]);
      forall k | k in AsMap(cmap) ensures exists i :: 0 <= i < |cmap| && cmap[i].codepoint == k {
        if k != cmap[0].codepoint {
          assert k in AsMap(cmap[1..]);
          var i :| 0 <= i < |cmap[1..]| && cmap[1..][i].codepoint == k;
          assert cmap[i + 1].codepoint == k;
        }
      }
    }
  }

  lemma {:induction false} DistinctOccursOnce(s: seq<Entry>, e: Entry)
    requires DistinctCodepoints(s)
    ensures multiset(s)[e] <= 1
  {
    if s != [] {
      assert DistinctCodepoints(s[1..]);
      DistinctOccursOnce(s[1..], e);
      assert s == [s[0]] + s[1..];
      if s[0] == e {
        assert e !in s[1..];
      }
    }
  }

  lemma TwiceCountsTwice(s: seq<Entry>, i: int, j: int)
    requires 0 <= i < j < |s| && s[i] == s[j]
    ensures multiset(s)[s[i]] >= 2
  {
    assert s == s[..j] + [s[j]] + s[j + 1..];
    assert s[i] in s[..j];
  }

  /** In a character map no two cards share a code text: the `data-code`
      that a click copies identifies the icon. */
  lemma CardsCodesDistinct(cmap: seq<Entry>)
    requires DistinctCodepoints(cmap)
    ensures forall i, j :: 0 <= i < j < |Cards(cmap)| ==> Cards(cmap)[i].hexCode != Cards(cmap)[j].hexCode
  {
    var cards := Cards(cmap);
    var sorted := SortByName(cmap);
    SortPermutation(cmap);
    forall i, j | 0 <= i < j < |cards| ensures cards[i].hexCode != cards[j].hexCode {
      if cards[i].hexCode == cards[j].hexCode {
        HexCode.CodeInjective(sorted[i].codepoint, sorted[j].codepoint);
        assert sorted[i] in multiset(cmap) && sorted[j] in multiset(cmap);
        var p :| 0 <= p < |cmap| && cmap[p] == sorted[i];
        var q :| 0 <= q < |cmap| && cmap[q] == sorted[j];
        assert p == q;
        TwiceCountsTwice(sorted, i, j);
        DistinctOccursOnce(cmap, sorted[i]);
        assert false;
      }
    }
  }
}
