/** ASCII character classes, case mapping and substring search, as used by the
    generator (Python `str.lower`) and by the page's search box (JavaScript
    `toLowerCase` and `includes`). Characters outside ASCII are treated as
    uncased: case mapping leaves them unchanged. */
module Text {

  predicate IsUpper(c: char) { 'A' <= c <= 'Z' }

  predicate IsLower(c: char) { 'a' <= c <= 'z' }

  /** A cased character: for ASCII, exactly the letters. */
  predicate IsLetter(c: char) { IsUpper(c) || IsLower(c) }

  function LowerChar(c: char): (r: char)
    ensures IsLetter(c) ==> IsLower(r) && (IsLower(c) ==> r == c)
    ensures !IsLetter(c) ==> r == c
    ensures IsLetter(r) <==> IsLetter(c)
  {
    if IsUpper(c) then (c as int + 32) as char else c
  }

  function UpperChar(c: char): (r: char)
    ensures IsLetter(c) ==> IsUpper(r) && (IsUpper(c) ==> r == c)
    ensures !IsLetter(c) ==> r == c
    ensures IsLetter(r) <==> IsLetter(c)
  {
    if IsLower(c) then (c as int - 32) as char else c
  }

  /** The two case maps undo each other on letters of the other case. */
  lemma CaseMapsInverse(c: char)
    ensures LowerChar(UpperChar(c)) == LowerChar(c)
    ensures UpperChar(LowerChar(c)) == UpperChar(c)
  {
  }

  /** `s.lower()` / `s.toLowerCase()` on ASCII text. */
  function Lower(s: string): (r: string)
    ensures |r| == |s|
    ensures forall i :: 0 <= i < |s| ==> r[i] == LowerChar(s[i])
  {
    if s == [] then [] else [LowerChar(s[0])] + Lower(s[1..])
  }

  function Upper(s: string): (r: string)
    ensures |r| == |s|
    ensures forall i :: 0 <= i < |s| ==> r[i] == UpperChar(s[i])
  {
    if s == [] then [] else [UpperChar(s[0])] + Upper(s[1..])
  }

  /** A string with no upper-case letter. */
  predicate NoUpper(s: string) {
    forall i :: 0 <= i < |s| ==> !IsUpper(s[i])
  }

  lemma LowerHasNoUpper(s: string)
    ensures NoUpper(Lower(s))
  {
  }

  /** Lowering text that has no upper-case letter changes nothing; in
      particular lowering twice is lowering once. */
  lemma LowerOfNoUpper(s: string)
    requires NoUpper(s)
    ensures Lower(s) == s
  {
  }

  lemma LowerIdempotent(s: string)
    ensures Lower(Lower(s)) == Lower(s)
  {
    LowerHasNoUpper(s);
    LowerOfNoUpper(Lower(s));
  }

  lemma LowerAppend(a: string, b: string)
    ensures Lower(a + b) == Lower(a) + Lower(b)
  {
  }

  /** Lower-casing forgets the case of the input: a search typed in capitals
      is the same search. */
  lemma LowerOfUpper(s: string)
    ensures Lower(Upper(s)) == Lower(s)
  {
    forall i | 0 <= i < |s| ensures Lower(Upper(s))[i] == Lower(s)[i] {
      CaseMapsInverse(s[i]);
    }
  }

  /** JavaScript `hay.includes(needle)`, written as a search that tries every
      start position from the left. */
  function Contains(hay: string, needle: string): (b: bool)
    ensures |needle| == 0 ==> b
    ensures b ==> |needle| <= |hay|
    decreases |hay|
  {
    if needle <= hay then true
    else if |hay| <= |needle| then false
    else Contains(hay[1..], needle)
  }

  /** The reference meaning of "needle occurs in hay": some window of hay of
      the needle's length is the needle. */
  ghost predicate OccursAt(hay: string, needle: string, k: int) {
    0 <= k && k + |needle| <= |hay| && hay[k..k + |needle|] == needle
  }

  ghost predicate Occurs(hay: string, needle: string) {
    exists k :: OccursAt(hay, needle, k)
  }

  lemma {:induction false} ContainsFindsOccurrence(hay: string, needle: string)
    requires Contains(hay, needle)
    ensures Occurs(hay, needle)
    decreases |hay|
  {
    if needle <= hay {
      assert OccursAt(hay, needle, 0);
    } else {
      ContainsFindsOccurrence(hay[1..], needle);
      var k :| OccursAt(hay[1..], needle, k);
      assert hay[1..][k..k + |needle|] == hay[k + 1..k + 1 + |needle|];
      assert OccursAt(hay, needle, k + 1);
    }
  }

  lemma {:induction false} OccurrenceIsFound(hay: string, needle: string, k: int)
    requires OccursAt(hay, needle, k)
    ensures Contains(hay, needle)
    decreases k
  {
    if k == 0 {
      assert hay[..|needle|] == needle;
    } else if !(needle <= hay) {
      assert hay[1..][k - 1..k - 1 + |needle|] == hay[k..k + |needle|];
      OccurrenceIsFound(hay[1..], needle, k - 1);
    }
  }

  /** `Contains` finds a needle exactly when it occurs somewhere. */
  lemma ContainsIsOccurs(hay: string, needle: string)
    ensures Contains(hay, needle) <==> Occurs(hay, needle)
  {
    if Contains(hay, needle) {
      ContainsFindsOccurrence(hay, needle);
    }
    if Occurs(hay, needle) {
      var k :| OccursAt(hay, needle, k);
      OccurrenceIsFound(hay, needle, k);
    }
  }

  /** Every string occurs in itself. */
  lemma ContainsSelf(s: string)
    ensures Contains(s, s)
  {
  }

  /** Occurrence is transitive: a piece of the needle occurs wherever the
      needle does. */
  lemma ContainsTransitive(hay: string, mid: string, needle: string)
    requires Contains(hay, mid) && Contains(mid, needle)
    ensures Contains(hay, needle)
  {
    ContainsFindsOccurrence(hay, mid);
    ContainsFindsOccurrence(mid, needle);
    var i :| OccursAt(hay, mid, i);
    var j :| OccursAt(mid, needle, j);
    forall k | 0 <= k < |needle| ensures hay[i + j..i + j + |needle|][k] == needle[k] {
      assert needle[k] == mid[j + k] == hay[i + j + k];
    }
    assert hay[i + j..i + j + |needle|] == needle;
    OccurrenceIsFound(hay, needle, i + j);
  }

  /** A prefix of a string occurs in it. */
  lemma ContainsPrefix(s: string, t: string)
    ensures Contains(s + t, s)
  {
    assert (s + t)[0..|s|] == s;
    OccurrenceIsFound(s + t, s, 0);
  }

  /** Every character of a needle that occurs in hay is a character of hay. */
  lemma ContainsChars(hay: string, needle: string, k: nat)
    requires Contains(hay, needle) && k < |needle|
    ensures needle[k] in hay
  {
    ContainsFindsOccurrence(hay, needle);
    var j :| OccursAt(hay, needle, j);
    assert hay[j + k] == needle[k];
  }
}
