# Fluent icons cheatsheet: the card catalog

`generate_fluent_cheatsheet.py` reads the character map of the Fluent System
Icons font (codepoint to glyph name) and writes one HTML page that lists
every icon as a card. This project models the part of that script with
behaviour worth stating: the loop that turns the character map into cards,
and the rule the page's search box uses to show or hide a card.

- **Input.** The character map is a sequence of `Sorting.Entry(codepoint,
  glyphName)` items in the dictionary's iteration order. A real map has
  distinct codepoints (`Catalog.DistinctCodepoints`). `Catalog.AsMap` gives
  the dictionary back.
- **Order** (`Sorting`). `sorted(cmap.items(), key=lambda x: x[1])` is
  modelled by `SortByName`, an insertion sort by Python's string order
  (`NameLe`). Cards come out in non-decreasing name order, and entries with
  equal names keep their input order. `StableSortUnique` proves that there
  is only one stable sort by name, so the insertion sort gives exactly what
  Python's sort gives.
- **Code text** (`HexCode`). `f"0x{codepoint:04x}"` is `HexCode.Code`:
  `ToHex` gives the shortest lower-case hexadecimal digits, and `PadLeft`
  pads them with zeros to at least four. `ParseCode` reads a code text back.
- **Caption** (`DisplayName`). `glyph_name.replace('_', ' ').title()` is
  `DisplayName.Of`. `Title` follows CPython's one-pass rule: a character
  whose previous input character was cased is lower-cased, and every other
  character is upper-cased. Only ASCII letters are cased.
- **Cards** (`Catalog`). `CardOf` builds one card: the entry, the caption,
  `data-name` (the lower-cased glyph name) and the code text. The same text
  is used for `data-code` and for the visible code line. `BuildCatalog` is
  the card loop of `generate_cheatsheet`. It walks the sorted items, appends one card per
  item and counts them in `total`. It is proved equal to the specification
  function `Cards`, and the lemmas about `Cards` carry the properties.
- **Search** (`Search`). `Shows` is the test inside `filterIcons`: the
  lower-cased search text must occur in `data-name` or in the lower-cased
  `data-code`. `Text.Contains` models JavaScript's `includes`, and
  `Text.Occurs` is its reference meaning. `VisibleCount` is the "Showing N"
  figure of `updateCount`.

The script makes one card per character-map item, with the full glyph
name; it groups nothing. An empty map gives zero cards and `total == 0`,
not an error.

## Model

| member | source | states |
|---|---|---|
| `Catalog.BuildCatalog` | generate_fluent_cheatsheet.py:284-299 | The loop makes one card per item, in sorted order (equal to `Cards(cmap)`). The counter ends at the number of items, so it is 0 for an empty map. |
| `Catalog.CardsPermutation` | generate_fluent_cheatsheet.py:285-298 | There is one card per item and none is dropped or duplicated: the cards' items are a permutation of the map's items. |
| `Catalog.CardsOrdered` | generate_fluent_cheatsheet.py:285 | Cards are in non-decreasing glyph-name order. Cards with equal names keep the map's order (stable). |
| `Catalog.CardOfDescribes` | generate_fluent_cheatsheet.py:287-296 | The code text is "0x" plus at least four lower-case hex digits, exactly four iff codepoint < 0x10000, and reads back as the codepoint. The caption keeps the name's length, turns every `_` into a space, keeps no `_` and is title-cased. `data-name` is the lower-cased name and has no upper-case letter. |
| `Catalog.CardsDescribe` | generate_fluent_cheatsheet.py:285-296 | Every card on the page meets the properties above for its own item. |
| `Catalog.CardsCodesDistinct` | generate_fluent_cheatsheet.py:285-296 | When codepoints are distinct, no two cards share a `data-code`, so the copied code identifies the icon. |
| `Catalog.AsMapSize` | generate_fluent_cheatsheet.py:284-299 | When codepoints are distinct, the number of items (which is `total`) equals the number of dictionary entries, and each item is one of those entries. |
| `Sorting.SortPermutation` | generate_fluent_cheatsheet.py:285 | The sorted sequence has the input's length and the same multiset of items. |
| `Sorting.SortSorted` | generate_fluent_cheatsheet.py:285 | The sorted sequence is non-decreasing by glyph name (every pair of positions compared). |
| `Sorting.SortStable` | generate_fluent_cheatsheet.py:285 | For every name, the items with that name appear in the same relative order as in the input. |
| `Sorting.StableSortUnique` | generate_fluent_cheatsheet.py:285 | Two sequences that are sorted by name and have the same items of each name in the same order are equal. So any stable sort by name gives the same result. |
| `Sorting.SortByNameIsTheStableSort` | generate_fluent_cheatsheet.py:285 | Any ordering that is sorted by name and stable with respect to the input is `SortByName(input)`, so Python's sort and the model agree. |
| `Sorting.StableIsPermutation` | generate_fluent_cheatsheet.py:285 | A stable reordering has the same multiset of items as its input. |
| `Sorting.NameLeTotal` | generate_fluent_cheatsheet.py:285 | Python's string order compares any two names. |
| `Sorting.NameLeTransitive` | generate_fluent_cheatsheet.py:285 | Python's string order is transitive. |
| `Sorting.NameLeAntisymmetric` | generate_fluent_cheatsheet.py:285 | Two names that are each ≤ the other are equal. |
| `Sorting.NameLeReflexive` | generate_fluent_cheatsheet.py:285 | Every name is ≤ itself. |
| `HexCode.CodeShape` | generate_fluent_cheatsheet.py:287 | `hex_code` is "0x" followed only by lower-case hex digits, at least four of them, with no upper-case letter. |
| `HexCode.CodeWidth` | generate_fluent_cheatsheet.py:287 | There are exactly four digits iff codepoint < 0x10000. A longer code has no leading zero. |
| `HexCode.CodeRoundTrip` | generate_fluent_cheatsheet.py:287 | Reading the digits back as base 16 gives the original codepoint. |
| `HexCode.CodeInjective` | generate_fluent_cheatsheet.py:287 | Distinct codepoints get distinct code texts. |
| `HexCode.ToHexValue` | generate_fluent_cheatsheet.py:287 | The unpadded digits of `format(n, 'x')` have value n. |
| `HexCode.ToHexLength` | generate_fluent_cheatsheet.py:287 | n has at most k hex digits iff n < 16^k. |
| `HexCode.ToHexNoLeadingZero` | generate_fluent_cheatsheet.py:287 | The unpadded digits start with '0' only for n = 0. |
| `HexCode.LeadingZerosValue` | generate_fluent_cheatsheet.py:287 | Zero padding does not change the value that is read back. |
| `DisplayName.ReplaceUnderscores` | generate_fluent_cheatsheet.py:290 | `replace('_', ' ')` keeps the length, puts a space at each `_` and leaves every other character as it was. |
| `DisplayName.TitleAt` | generate_fluent_cheatsheet.py:290 | `title()` keeps the length. Position i is upper-cased when it starts a word (first, or after a non-letter) and lower-cased otherwise. |
| `DisplayName.TitleIsTitleCased` | generate_fluent_cheatsheet.py:290 | The result is upper-case exactly at letters that start a word and lower-case exactly at the other letters. Non-letters are unchanged, and each letter is the same letter up to case. |
| `DisplayName.TitleCasedUnique` | generate_fluent_cheatsheet.py:290 | The title-case rule fixes the result: any string meeting it is `Title(s)`. |
| `DisplayName.TitleIdempotent` | generate_fluent_cheatsheet.py:290 | Title-casing a title-cased string changes nothing. |
| `DisplayName.OfShape` | generate_fluent_cheatsheet.py:290 | `display_name` is as long as the glyph name. It has a space at every `_`, no `_` anywhere, and is the title-casing of the name with spaces for underscores. |
| `DisplayName.OfLower` | generate_fluent_cheatsheet.py:290-293 | The caption, lower-cased, is `data-name` with spaces for underscores. |
| `DisplayName.OfAddCircle` | generate_fluent_cheatsheet.py:290 | Worked example: "add_circle" is captioned "Add Circle". |
| `DisplayName.TitleAfterDigit` | generate_fluent_cheatsheet.py:290 | Worked example: a letter after a digit starts a word, so "3d" becomes "3D". |
| `Text.Lower` | generate_fluent_cheatsheet.py:293 | `lower()` keeps the length and lower-cases each character on its own. |
| `Text.LowerOfUpper` | generate_fluent_cheatsheet.py:370 | Lower-casing erases the input's case: Lower(Upper(s)) == Lower(s). |
| `Text.ContainsIsOccurs` | generate_fluent_cheatsheet.py:376 | `includes` is true iff the needle equals some window of the haystack (both directions). |
| `Text.ContainsTransitive` | generate_fluent_cheatsheet.py:376 | A substring of a substring is a substring. |
| `Search.ShowsCard` | generate_fluent_cheatsheet.py:369-381 | A card is shown iff the lower-cased query occurs in the lower-cased glyph name or in the code text. Lower-casing `data-code` first changes nothing. |
| `Search.EmptySearchShowsAll` | generate_fluent_cheatsheet.py:410-414 | The empty query, which Escape resets to, shows all cards. |
| `Search.SearchIgnoresCase` | generate_fluent_cheatsheet.py:370 | A query typed in capitals shows the same cards. |
| `Search.NarrowingHides` | generate_fluent_cheatsheet.py:369-381 | Typing more characters never shows a card that was hidden. |
| `Search.NarrowingCount` | generate_fluent_cheatsheet.py:364-381 | So the visible count never rises as the query grows. |
| `Search.VisibleCount` | generate_fluent_cheatsheet.py:364-366 | The "Showing N of total" count is at most the number of cards. |
| `Search.FindsOwnNameAndCode` | generate_fluent_cheatsheet.py:369-381 | Searching for a card's glyph name in any mix of cases (any query whose lower-cased form is the lower-cased name), or for its code text, shows that card. |
| `Search.CaptionSearchMisses` | generate_fluent_cheatsheet.py:290-296 | The search works on the glyph name, not the caption. When the name has an `_`, typing the caption exactly as shown hides the card: the caption has a space there, and neither `data-name` nor the code text contains that space in the same place. |

## Left out

- Font download (`download_font`) and the `__main__` block: network access, `sys.argv` handling and process exit.
- Font parsing: `TTFont` and `getBestCmap` are calls into fontTools. The character map is an input sequence, and a font without a Unicode cmap (where `getBestCmap` gives `None`) is not modelled.
- File I/O: the base64 embedding of the font file, writing the HTML file, and the console messages, including the one that prints `total`. `total` itself is modelled.
- The page text: the markup, the CSS and the HTML fragment of each card. The model keeps each card's fields (caption, `data-name`, `data-code`, code text), not the markup around them. The source does no HTML escaping, and neither does the model.
- `chr(codepoint)` and its error path: the model builds a card for any natural codepoint. In the script, `chr` raises `ValueError` for a codepoint of 0x110000 or more, and a lone surrogate (0xD800 to 0xDFFF) makes writing the UTF-8 file fail. In both cases the run stops and no page is written; the model does not capture that failure.
- Client-side behaviour other than the match rule: themes, density, `localStorage`, `matchMedia`, clipboard copy, notifications and timers. The DOM updates of `filterIcons` are also left out: the model has a per-card predicate and a count, not the show/hide update on every card.
- Sorting algorithm: Python's Timsort is replaced by an insertion sort. `Sorting.StableSortUnique` proves that the output is the same.
- Dictionary iteration order: it is taken as given, namely the input sequence's order.
- Text.Lower: the model is ASCII only. Python's `lower()` and JavaScript's `toLowerCase()` also map non-ASCII letters, which the model leaves unchanged.
- DisplayName.TitleIsTitleCased: the model is ASCII only. Python's `title()` also cases non-ASCII letters and uses Unicode title-case forms, which the model treats as uncased characters.
- Search.ShowsCard: the search reads `data-name` and `data-code` back from HTML the browser parsed. The model assumes these equal the strings that were written in, which holds when glyph names contain no `"`, `&`, carriage return or NUL (the browser's parser would change those).
- Search.ShowsCard: JavaScript compares UTF-16 code units. The model compares characters, which agree on ASCII text.
