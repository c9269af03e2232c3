/** The caption of a card: `glyph_name.replace('_', ' ').title()`.

    `str.title()` walks the string once, remembering whether the previous
    INPUT character was cased: a character after a cased one is lower-cased,
    any other is title-cased (upper-cased, for ASCII). Digits, spaces and
    punctuation are uncased, so a letter after them starts a new word. */
module DisplayName {
  import opened Text

  /** `s.replace('_', ' ')` */
  function ReplaceUnderscores(s: string): (r: string)
    ensures |r| == |s|
    ensures forall i :: 0 <= i < |s| ==> r[i] == if s[i] == '_' then ' ' else s[i]
  {
    if s == [] then [] else [if s[0] == '_' then ' ' else s[0]] + ReplaceUnderscores(s[1..])
  }

  /** The title-casing pass, started with `prevCased` as the state left by
      the characters before `s`. */
  function TitleFrom(s: string, prevCased: bool): string {
    if s == [] then []
    else [if prevCased then LowerChar(s[0]) else UpperChar(s[0])] + TitleFrom(s[1..], IsLetter(s[0]))
  }

  /** `s.title()` */
  function Title(s: string): string {
    TitleFrom(s, false)
  }

  /** Position i of s starts a word: it is first, or follows an uncased
      character. */
  predicate StartsWord(s: string, i: int)
    requires 0 <= i < |s|
  {
    i == 0 || !IsLetter(s[i - 1])
  }

  /** The title-case rule stated position by position: the length is kept;
      a character is upper-case exactly when it is a letter that starts a
      word, lower-case exactly when it is a letter inside a word, and every
      non-letter is left as it was. */
  ghost predicate TitleCased(s: string, r: string) {
    && |r| == |s|
    && (forall i :: 0 <= i < |s| ==> (IsUpper(r[i]) <==> IsLetter(s[i]) && StartsWord(s, i)))
    && (forall i :: 0 <= i < |s| ==> (IsLower(r[i]) <==> IsLetter(s[i]) && !StartsWord(s, i)))
    && (forall i :: 0 <= i < |s| ==> !IsLetter(s[i]) ==> r[i] == s[i])
    && (forall i :: 0 <= i < |s| ==> LowerChar(r[i]) == LowerChar(s[i]))
  }

  lemma {:induction false} TitleFromAt(s: string, prevCased: bool, i: nat)
    requires i < |s|
    ensures |TitleFrom(s, prevCased)| == |s|
    ensures TitleFrom(s, prevCased)[i] ==
      if (i == 0 && !prevCased) || (i > 0 && !IsLetter(s[i - 1])) then UpperChar(s[i]) else LowerChar(s[i])
    decreases i
  {
    TitleFromLength(s, prevCased);
    if i > 0 {
      TitleFromAt(s[1..], IsLetter(s[0]), i - 1);
    }
  }

  lemma {:induction false} TitleFromLength(s: string, prevCased: bool)
    ensures |TitleFrom(s, prevCased)| == |s|
  {
    if s != [] {
      TitleFromLength(s[1..], IsLetter(s[0]));
    }
  }

  /** Position i of `Title(s)` is upper-cased when i starts a word and
      lower-cased otherwise. */
  lemma TitleAt(s: string, i: nat)
    requires i < |s|
    ensures |Title(s)| == |s|
    ensures Title(s)[i] == if StartsWord(s, i) then UpperChar(s[i]) else LowerChar(s[i])
  {
    TitleFromAt(s, false, i);
  }

  /** `Title` meets the title-case rule. */
  lemma TitleIsTitleCased(s: string)
    ensures TitleCased(s, Title(s))
  {
    TitleFromLength(s, false);
    forall i | 0 <= i < |s|
      ensures Title(s)[i] == if StartsWord(s, i) then UpperChar(s[i]) else LowerChar(s[i])
    {
      TitleAt(s, i);
    }
    forall i | 0 <= i < |s| ensures LowerChar(Title(s)[i]) == LowerChar(s[i]) {
      CaseMapsInverse(s[i]);
    }
  }

  /** The rule determines the title-cased string: any string that meets it
      is `Title(s)`. */
  lemma TitleCasedUnique(s: string, r: string)
    requires TitleCased(s, r)
    ensures r == Title(s)
  {
    TitleIsTitleCased(s);
    var t := Title(s);
    forall i | 0 <= i < |s| ensures r[i] == t[i] {
      CaseMapsInverse(s[i]);
      CaseMapsInverse(r[i]);
      CaseMapsInverse(t[i]);
    }
  }

  /** Title-casing again changes nothing. */
  lemma TitleIdempotent(s: string)
    ensures Title(Title(s)) == Title(s)
  {
    var t := Title(s);
    TitleFromLength(s, false);
    TitleFromLength(t, false);
    forall i | 0 <= i < |s| ensures Title(t)[i] == t[i] {
      TitleAt(s, i);
      TitleAt(t, i);
      if i > 0 {
        TitleAt(s, i - 1);
      }
    }
  }

  /** `display_name` for a glyph name. */
  function Of(glyphName: string): string {
    Title(ReplaceUnderscores(glyphName))
  }

  /** The caption has the glyph name's length; every '_' became a space and
      no underscore is left; the letters follow the title-case rule on the
      name with spaces for underscores. */
  lemma OfShape(glyphName: string)
    ensures |Of(glyphName)| == |glyphName|
    ensures forall i :: 0 <= i < |glyphName| && glyphName[i] == '_' ==> Of(glyphName)[i] == ' '
    ensures forall i :: 0 <= i < |glyphName| ==> Of(glyphName)[i] != '_'
    ensures TitleCased(ReplaceUnderscores(glyphName), Of(glyphName))
  {
    var u := ReplaceUnderscores(glyphName);
    TitleIsTitleCased(u);
    forall i | 0 <= i < |glyphName| ensures Of(glyphName)[i] != '_' {
      TitleAt(u, i);
    }
  }

  /** Lower-casing the caption recovers the card's search name with spaces
      for underscores: caption and `data-name` spell the same letters. */
  lemma OfLower(glyphName: string)
    ensures Lower(Of(glyphName)) == ReplaceUnderscores(Lower(glyphName))
  {
    var u := ReplaceUnderscores(glyphName);
    TitleIsTitleCased(u);
    OfShape(glyphName);
  }

  /** A worked example: "add_circle" is captioned "Add Circle". */
  lemma OfAddCircle()
    ensures Of("add_circle") == "Add Circle"
  {
    AddCircleReplaced();
    AddCircleTitled();
  }

  lemma AddCircleReplaced()
    ensures ReplaceUnderscores("add_circle") == "add circle"
  {
    var u := ReplaceUnderscores("add_circle");
    assert |u| == 10 && u[3] == ' ';
    assert forall i | 0 <= i < 10 :: u[i] == "add circle"[i];
  }

  lemma AddCircleTitled()
    ensures Title("add circle") == "Add Circle"
  {
    var u := "add circle";
    TitleFromLength(u, false);
    forall i | 0 <= i < 10 ensures Title(u)[i] == "Add Circle"[i] {
      TitleAt(u, i);
      assert StartsWord(u, i) <==> i == 0 || i == 4;
    }
  }

  /** A worked example: a letter after a digit starts a word, so "3d" is
      captioned "3D". */
  lemma TitleAfterDigit()
    ensures Title("3d") == "3D"
  {
    TitleAt("3d", 0);
    TitleAt("3d", 1);
  }
}
