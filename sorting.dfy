/** The order of the cards: `sorted(cmap.items(), key=lambda x: x[1])`.

    Python compares strings character by character by code point, a proper
    prefix coming first, and its sort is stable: entries whose names compare
    equal keep the order in which the dictionary yielded them. The sort is
    modelled as insertion sort; `StableSortUnique` shows that every stable
    sort by name, Python's included, gives this same sequence. */
module Sorting {

  /** One item of the font's character map: a codepoint and its glyph name. */
  datatype Entry = Entry(codepoint: nat, glyphName: string)

  /** Python's `a <= b` on strings. */
  predicate NameLe(a: string, b: string)
    decreases |a|
  {
    if a == [] then true
    else if b == [] then false
    else if a[0] != b[0] then a[0] < b[0]
    else NameLe(a[1..], b[1..])
  }

  lemma {:induction false} NameLeReflexive(a: string)
    ensures NameLe(a, a)
    decreases |a|
  {
    if a != [] { NameLeReflexive(a[1..]); }
  }

  lemma {:induction false} NameLeTotal(a: string, b: string)
    ensures NameLe(a, b) || NameLe(b, a)
    decreases |a|
  {
    if a != [] && b != [] && a[0] == b[0] { NameLeTotal(a[1..], b[1..]); }
  }

  lemma {:induction false} NameLeAntisymmetric(a: string, b: string)
    requires NameLe(a, b) && NameLe(b, a)
    ensures a == b
    decreases |a|
  {
    if a != [] {
      NameLeAntisymmetric(a[1..], b[1..]);
      assert a == [a[0]] + a[1..] && b == [b[0]] + b[1..];
    }
  }

  lemma {:induction false} NameLeTransitive(a: string, b: string, c: string)
    requires NameLe(a, b) && NameLe(b, c)
    ensures NameLe(a, c)
    decreases |a|
  {
    if a != [] && a[0] == b[0] && b[0] == c[0] {
      NameLeTransitive(a[1..], b[1..], c[1..]);
    }
  }

  /** Non-decreasing by glyph name, every pair compared. */
  ghost predicate SortedByName(s: seq<Entry>) {
    forall i, j :: 0 <= i < j < |s| ==> NameLe(s[i].glyphName, s[j].glyphName)
  }

  /** The entries of s named `name`, in their order in s. */
  function Named(s: seq<Entry>, name: string): (r: seq<Entry>)
    ensures |r| <= |s|
    ensures forall e :: e in r ==> e in s && e.glyphName == name
  {
    if s == [] then []
    else (if s[0].glyphName == name then [s[0]] else []) + Named(s[1..], name)
  }

  /** A stable reordering: for every name, the entries of that name appear
      in the same relative order as in the input. It implies the same
      multiset of entries (`StableIsPermutation`). */
  ghost predicate Stable(input: seq<Entry>, output: seq<Entry>) {
    forall name :: Named(output, name) == Named(input, name)
  }

  /** Places e before the first entry whose name is not smaller than e's. */
  function Insert(e: Entry, t: seq<Entry>): (r: seq<Entry>)
    ensures |r| == |t| + 1
  {
    if t == [] || NameLe(e.glyphName, t[0].glyphName) then [e] + t
    else [t[0]] + Insert(e, t[1..])
  }

  /** The card order: sorted by glyph name, ties kept in input order. */
  function SortByName(s: seq<Entry>): seq<Entry> {
    if s == [] then [] else Insert(s[0], SortByName(s[1..]))
  }

  lemma {:induction false} InsertPermutation(e: Entry, t: seq<Entry>)
    ensures multiset(Insert(e, t)) == multiset([e] + t)
  {
    if !(t == [] || NameLe(e.glyphName, t[0].glyphName)) {
      InsertPermutation(e, t[1..]);
      assert t == [t[0]] + t[1..];
    }
  }

  lemma {:induction false} InsertSorted(e: Entry, t: seq<Entry>)
    requires SortedByName(t)
    ensures SortedByName(Insert(e, t))
  {
    if t == [] {
    } else if NameLe(e.glyphName, t[0].glyphName) {
      forall j | 0 <= j < |t| ensures NameLe(e.glyphName, t[j].glyphName) {
        if j > 0 { NameLeTransitive(e.glyphName, t[0].glyphName, t[j].glyphName); }
      }
    } else {
      var rest := Insert(e, t[1..]);
      InsertSorted(e, t[1..]);
      InsertPermutation(e, t[1..]);
      NameLeTotal(e.glyphName, t[0].glyphName);
      forall j | 0 <= j < |rest| ensures NameLe(t[0].glyphName, rest[j].glyphName) {
        assert rest[j] in multiset([e] + t[1..]);
      }
    }
  }

  lemma {:induction false} InsertNamed(e: Entry, t: seq<Entry>, name: string)
    ensures Named(Insert(e, t), name) == Named([e] + t, name)
  {
    if t == [] || NameLe(e.glyphName, t[0].glyphName) {
    } else {
      NameLeReflexive(e.glyphName);
      InsertNamed(e, t[1..], name);
      assert ([t[0]] + Insert(e, t[1..]))[1..] == Insert(e, t[1..]);
      assert ([e] + t)[1..] == t;
      assert ([e] + t[1..])[1..] == t[1..];
    }
  }

  /** The sorted catalog is a permutation of the input. */
  lemma {:induction false} SortPermutation(s: seq<Entry>)
    ensures |SortByName(s)| == |s|
    ensures multiset(SortByName(s)) == multiset(s)
  {
    if s != [] {
      SortPermutation(s[1..]);
      InsertPermutation(s[0], SortByName(s[1..]));
      assert s == [s[0]] + s[1..];
    }
  }

  /** The sorted catalog is ordered by glyph name. */
  lemma {:induction false} SortSorted(s: seq<Entry>)
    ensures SortedByName(SortByName(s))
  {
    if s != [] {
      SortSorted(s[1..]);
      InsertSorted(s[0], SortByName(s[1..]));
    }
  }

  /** The sort is stable. */
  lemma {:induction false} SortStable(s: seq<Entry>)
    ensures Stable(s, SortByName(s))
  {
    if s != [] {
      SortStable(s[1..]);
      forall name ensures Named(SortByName(s), name) == Named(s, name) {
        InsertNamed(s[0], SortByName(s[1..]), name);
        assert ([s[0]] + SortByName(s[1..]))[1..] == SortByName(s[1..]);
      }
    }
  }

  lemma {:induction false} NamedHead(s: seq<Entry>)
    requires s != []
    ensures Named(s, s[0].glyphName) != [] && Named(s, s[0].glyphName)[0] == s[0]
  {
  }

  lemma {:induction false} NamedTail(s: seq<Entry>, name: string)
    requires s != []
    ensures Named(s, name) == if s[0].glyphName == name then [s[0]] + Named(s[1..], name) else Named(s[1..], name)
  {
  }

  lemma {:induction false} NamedHas(s: seq<Entry>, e: Entry)
    requires e in s
    ensures e in Named(s, e.glyphName)
  {
    if s[0] != e {
      NamedHas(s[1..], e);
    }
  }

  /** The first entry of a sorted sequence has the least name. */
  lemma FirstIsLeast(r: seq<Entry>, e: Entry)
    requires SortedByName(r) && e in r
    ensures NameLe(r[0].glyphName, e.glyphName)
  {
    var i :| 0 <= i < |r| && r[i] == e;
    if i == 0 { NameLeReflexive(e.glyphName); }
  }

  /** Two sorted sequences that agree on every name start alike. */
  lemma HeadsAgree(r1: seq<Entry>, r2: seq<Entry>)
    requires SortedByName(r1) && SortedByName(r2) && Stable(r1, r2)
    requires r1 != [] && r2 != []
    ensures r1[0] == r2[0]
  {
    var m1, m2 := r1[0].glyphName, r2[0].glyphName;
    assert r2[0] in r1 by {
      NamedHas(r2, r2[0]);
      assert Named(r1, m2) == Named(r2, m2);
    }
    assert r1[0] in r2 by {
      NamedHas(r1, r1[0]);
      assert Named(r1, m1) == Named(r2, m1);
    }
    FirstIsLeast(r1, r2[0]);
    FirstIsLeast(r2, r1[0]);
    NameLeAntisymmetric(m1, m2);
    NamedHead(r1);
    NamedHead(r2);
    assert Named(r1, m1) == Named(r2, m1);
  }

  /** Removing a common first entry keeps the agreement on every name. */
  lemma TailsAgree(r1: seq<Entry>, r2: seq<Entry>)
    requires Stable(r1, r2) && r1 != [] && r2 != [] && r1[0] == r2[0]
    ensures Stable(r1[1..], r2[1..])
  {
    forall name ensures Named(r2[1..], name) == Named(r1[1..], name) {
      NamedTail(r1, name);
      NamedTail(r2, name);
      assert Named(r1, name) == Named(r2, name);
      if name == r1[0].glyphName {
        assert Named(r1[1..], name) == Named(r1, name)[1..];
        assert Named(r2[1..], name) == Named(r2, name)[1..];
      }
    }
  }

  /** A stable sort by name is unique: two sequences that are sorted by
      name and agree on the order of every name's entries are equal. So the
      insertion sort above gives exactly what Python's sort gives. */
  lemma {:induction false} StableSortUnique(r1: seq<Entry>, r2: seq<Entry>)
    requires SortedByName(r1) && SortedByName(r2) && Stable(r1, r2)
    ensures r1 == r2
    decreases |r1|
  {
    if r1 == [] && r2 == [] {
    } else if r1 == [] {
      NamedHead(r2);
    } else if r2 == [] {
      NamedHead(r1);
    } else {
      HeadsAgree(r1, r2);
      TailsAgree(r1, r2);
      StableSortUnique(r1[1..], r2[1..]);
      assert r1 == [r1[0]] + r1[1..] && r2 == [r2[0]] + r2[1..];
    }
  }

  /** Any stable sort of the input by name is `SortByName(input)`. */
  lemma SortByNameIsTheStableSort(input: seq<Entry>, r: seq<Entry>)
    requires SortedByName(r) && Stable(input, r)
    ensures r == SortByName(input)
  {
    SortSorted(input);
    SortStable(input);
    StableSortUnique(r, SortByName(input));
  }

  /** A stable reordering has the same multiset of entries. */
  lemma StableIsPermutation(input: seq<Entry>, output: seq<Entry>)
    requires Stable(input, output)
    ensures multiset(output) == multiset(input)
  {
    forall e ensures multiset(output)[e] == multiset(input)[e] {
      NamedCount(output, e);
      NamedCount(input, e);
    }
  }

  lemma {:induction false} NamedCount(s: seq<Entry>, e: Entry)
    ensures multiset(Named(s, e.glyphName))[e] == multiset(s)[e]
  {
    if s != [] {
      NamedCount(s[1..], e);
      assert s == [s[0]] + s[1..];
    }
  }
}
