/** The string operations the call log relies on, written out over
    `seq<char>`: ASCII lower-casing, substring search, splitting and joining
    on a separator, whitespace trimming, and the lexicographic order with an
    insertion sort standing in for the default array sort. */
module Text {

  // ---------------------------------------------------------------------
  // Lower-casing and substring search
  // ---------------------------------------------------------------------

  function LowerChar(c: char): (r: char)
    ensures 'A' <= c <= 'Z' ==> 'a' <= r <= 'z' && r as int - c as int == 32
    ensures !('A' <= c <= 'Z') ==> r == c
  {
    if 'A' <= c <= 'Z' then (c as int + 32) as char else c
  }

  /** Lower-cases ASCII letters and leaves every other character alone. */
  function Lower(s: string): (r: string)
    ensures |r| == |s|
    ensures forall i :: 0 <= i < |s| ==> r[i] == LowerChar(s[i])
  {
    seq(|s|, i requires 0 <= i < |s| => LowerChar(s[i]))
  }

  lemma LowerIdempotent(s: string)
    ensures Lower(Lower(s)) == Lower(s)
  {
    forall i | 0 <= i < |s| ensures Lower(Lower(s))[i] == Lower(s)[i] {
      assert LowerChar(LowerChar(s[i])) == LowerChar(s[i]);
    }
  }

  /** `needle` occurs in `hay` as a contiguous block (the string `includes`). */
  predicate Contains(hay: string, needle: string)
    decreases |hay|
  {
    needle <= hay || (hay != [] && Contains(hay[1..], needle))
  }

  /** An independent statement of substring search: some offset where the needle starts. */
  ghost predicate OccursAt(hay: string, needle: string, k: int)
  {
    0 <= k && k + |needle| <= |hay| && hay[k..k + |needle|] == needle
  }

  lemma {:induction false} ContainsOffset(hay: string, needle: string) returns (k: int)
    requires Contains(hay, needle)
    ensures OccursAt(hay, needle, k)
    decreases |hay|
  {
    if needle <= hay {
      assert hay[0..|needle|] == needle;
      k := 0;
    } else {
      var k' := ContainsOffset(hay[1..], needle);
      assert hay[k' + 1..k' + 1 + |needle|] == hay[1..][k'..k' + |needle|];
      k := k' + 1;
    }
  }

  lemma {:induction false} OccursContains(hay: string, needle: string, k: int)
    requires OccursAt(hay, needle, k)
    ensures Contains(hay, needle)
    decreases k
  {
    if k == 0 {
      assert hay[..|needle|] == needle;
    } else {
      assert hay[1..][k - 1..k - 1 + |needle|] == hay[k..k + |needle|];
      OccursContains(hay[1..], needle, k - 1);
    }
  }

  /** The recursive search agrees with the offset definition. */
  lemma ContainsIffOccurs(hay: string, needle: string)
    ensures Contains(hay, needle) <==> exists k :: OccursAt(hay, needle, k)
  {
    if Contains(hay, needle) {
      var k := ContainsOffset(hay, needle);
    }
    forall k | OccursAt(hay, needle, k) ensures Contains(hay, needle) {
      OccursContains(hay, needle, k);
    }
  }

  // ---------------------------------------------------------------------
  // Splitting and joining on a separator
  // ---------------------------------------------------------------------

  /** The pieces glued back together with `sep` between neighbours (the array `join`). */
  function Join(ps: seq<string>, sep: char): string
  {
    if ps == [] then [] else if |ps| == 1 then ps[0] else ps[0] + [sep] + Join(ps[1..], sep)
  }

  /** The string `split` on one separator character: always at least one piece,
      no piece holds the separator, and joining the pieces gives the input back. */
  function Split(s: string, sep: char): (r: seq<string>)
    ensures |r| >= 1
    ensures forall p :: p in r ==> sep !in p
    ensures Join(r, sep) == s
    decreases |s|
  {
    if s == [] then [[]]
    else
      var rest := Split(s[1..], sep);
      assert s == [s[0]] + s[1..];
      if s[0] == sep then
        assert ([[]] + rest)[1..] == rest;
        assert Join([[]] + rest, sep) == [] + [sep] + Join(rest, sep);
        [[]] + rest
      else
        var r := [[s[0]] + rest[0]] + rest[1..];
        assert r[1..] == rest[1..];
        assert sep !in [s[0]] + rest[0];
        assert |rest| > 1 ==> Join(rest, sep) == rest[0] + [sep] + Join(rest[1..], sep);
        assert |rest| > 1 ==> Join(r, sep) == ([s[0]] + rest[0]) + [sep] + Join(rest[1..], sep);
        r
  }

  lemma {:induction false} SplitPrefix(p: string, t: string, sep: char)
    requires sep !in p
    ensures Split(p + t, sep) == [p + Split(t, sep)[0]] + Split(t, sep)[1..]
    decreases |p|
  {
    var q := Split(t, sep);
    if p != [] {
      assert (p + t)[1..] == p[1..] + t;
      SplitPrefix(p[1..], t, sep);
      assert [p[0]] + (p[1..] + q[0]) == p + q[0];
    } else {
      assert p + t == t;
      assert p + q[0] == q[0];
      assert q == [q[0]] + q[1..];
    }
  }

  /** Splitting a string that starts with one character, by what that character is. */
  lemma SplitCons(c: char, t: string, sep: char)
    ensures Split([c] + t, sep) ==
            if c == sep then [[]] + Split(t, sep) else [[c] + Split(t, sep)[0]] + Split(t, sep)[1..]
  {
    assert ([c] + t)[0] == c && ([c] + t)[1..] == t;
  }

  /** A separator splits the string into the pieces before it followed by the pieces after it. */
  lemma {:induction false} SplitAppend(p: string, q: string, sep: char)
    ensures Split(p + [sep] + q, sep) == Split(p, sep) + Split(q, sep)
    decreases |p|
  {
    if p == [] {
      assert p + [sep] + q == [sep] + q;
      SplitCons(sep, q, sep);
    } else {
      var t := p[1..] + [sep] + q;
      assert p + [sep] + q == [p[0]] + t;
      assert p == [p[0]] + p[1..];
      SplitAppend(p[1..], q, sep);
      SplitCons(p[0], t, sep);
      SplitCons(p[0], p[1..], sep);
      if p[0] == sep {
        PiecesAppend([], Split(p[1..], sep), Split(q, sep));
      } else {
        PiecesAppend([p[0]], Split(p[1..], sep), Split(q, sep));
      }
    }
  }

  /** Putting a piece in front of, or joining text to the first of, pieces `a`
      commutes with appending pieces `b`. */
  lemma PiecesAppend(x: string, a: seq<string>, b: seq<string>)
    requires |a| >= 1
    ensures [x] + (a + b) == ([x] + a) + b
    ensures [x + (a + b)[0]] + (a + b)[1..] == ([x + a[0]] + a[1..]) + b
  {
    assert (a + b)[0] == a[0] && (a + b)[1..] == a[1..] + b;
  }

  /** A string without the separator is a single piece. */
  lemma SplitNoSeparator(p: string, sep: char)
    requires sep !in p
    ensures Split(p, sep) == [p]
  {
    SplitPrefix(p, [], sep);
    assert p + [] == p;
  }

  /** Splitting undoes joining, for pieces free of the separator. */
  lemma {:induction false} SplitJoin(ps: seq<string>, sep: char)
    requires |ps| >= 1
    requires forall p :: p in ps ==> sep !in p
    ensures Split(Join(ps, sep), sep) == ps
    decreases |ps|
  {
    if |ps| == 1 {
      SplitPrefix(ps[0], [], sep);
      assert ps[0] + [] == ps[0];
    } else {
      var rest := Join(ps[1..], sep);
      SplitJoin(ps[1..], sep);
      assert ps[0] + [sep] + rest == ps[0] + ([sep] + rest);
      SplitPrefix(ps[0], [sep] + rest, sep);
      assert ([sep] + rest)[1..] == rest;
      assert Split([sep] + rest, sep) == [[]] + ps[1..];
      assert ([[]] + ps[1..])[0] == [] && ([[]] + ps[1..])[1..] == ps[1..];
      assert ps[0] + [] == ps[0];
      assert ps == [ps[0]] + ps[1..];
    }
  }

  // ---------------------------------------------------------------------
  // Whitespace trimming
  // ---------------------------------------------------------------------

  /** The characters the string `trim` removes: white space and line terminators. */
  predicate IsWhitespace(c: char)
  {
    c == '\t' || c == '\n' || c == '\U{000B}' || c == '\U{000C}' || c == '\r' || c == ' '
    || c == '\U{00A0}' || c == '\U{1680}' || ('\U{2000}' <= c <= '\U{200A}')
    || c == '\U{2028}' || c == '\U{2029}' || c == '\U{202F}' || c == '\U{205F}'
    || c == '\U{3000}' || c == '\U{FEFF}'
  }

  predicate Blank(s: string)
  {
    forall i :: 0 <= i < |s| ==> IsWhitespace(s[i])
  }

  /** The first index at or after `i` whose character is not white space
      (`|s|` when there is none). */
  function SkipLeading(s: string, i: nat): (j: nat)
    requires i <= |s|
    ensures i <= j <= |s|
    ensures forall k :: i <= k < j ==> IsWhitespace(s[k])
    ensures j < |s| ==> !IsWhitespace(s[j])
    decreases |s| - i
  {
    if i < |s| && IsWhitespace(s[i]) then SkipLeading(s, i + 1) else i
  }

  /** The end of `s[lo..hi]` once its trailing white space is cut off. */
  function SkipTrailing(s: string, lo: nat, hi: nat): (m: nat)
    requires lo <= hi <= |s|
    ensures lo <= m <= hi
    ensures forall k :: m <= k < hi ==> IsWhitespace(s[k])
    ensures m > lo ==> !IsWhitespace(s[m - 1])
    decreases hi
  {
    if hi > lo && IsWhitespace(s[hi - 1]) then SkipTrailing(s, lo, hi - 1) else hi
  }

  /** Drops the leading and trailing white space: the result is the input's
      middle part between a blank prefix and a blank suffix; it is empty exactly
      when the input is blank, otherwise it starts and ends with a visible
      character. */
  function Trim(s: string): (r: string)
    ensures r == [] <==> Blank(s)
    ensures r != [] ==> !IsWhitespace(r[0]) && !IsWhitespace(r[|r| - 1])
    ensures exists k :: 0 <= k && k + |r| <= |s| && r == s[k..k + |r|] && Blank(s[..k]) && Blank(s[k + |r|..])
  {
    var lo := SkipLeading(s, 0);
    var hi := SkipTrailing(s, lo, |s|);
    MiddleFacts(s, lo, hi);
    var r := s[lo..hi];
    assert r == [] ==> lo == |s|;
    assert r != [] ==> r[0] == s[lo] && r[|r| - 1] == s[hi - 1];
    assert r == s[lo..lo + |r|];
    r
  }

  /** The part of `s` between a blank prefix and a blank suffix. */
  lemma MiddleFacts(s: string, lo: nat, hi: nat)
    requires lo <= hi <= |s|
    requires forall k :: 0 <= k < lo ==> IsWhitespace(s[k])
    requires forall k :: hi <= k < |s| ==> IsWhitespace(s[k])
    ensures Blank(s[..lo]) && Blank(s[hi..])
    ensures lo == |s| ==> Blank(s)
    ensures lo < |s| && !IsWhitespace(s[lo]) ==> !Blank(s)
  {
    assert forall i :: 0 <= i < |s| - hi ==> s[hi..][i] == s[hi + i];
    assert forall i :: 0 <= i < hi - lo ==> s[lo..hi][i] == s[lo + i];
  }

  // ---------------------------------------------------------------------
  // Lexicographic order and sorting
  // ---------------------------------------------------------------------

  /** Strict lexicographic order on character sequences; a proper prefix comes first. */
  predicate Less(a: string, b: string)
  {
    if a == [] then b != []
    else if b == [] then false
    else if a[0] != b[0] then a[0] < b[0]
    else Less(a[1..], b[1..])
  }

  predicate LessEq(a: string, b: string)
  {
    a == b || Less(a, b)
  }

  lemma {:induction false} LessIrreflexive(a: string)
    ensures !Less(a, a)
  {
    if a != [] {
      LessIrreflexive(a[1..]);
    }
  }

  lemma {:induction false} LessTrichotomy(a: string, b: string)
    ensures a == b || Less(a, b) || Less(b, a)
    ensures !(Less(a, b) && Less(b, a))
  {
    if a != [] && b != [] && a[0] == b[0] {
      LessTrichotomy(a[1..], b[1..]);
      if a[1..] == b[1..] {
        assert a == [a[0]] + a[1..] && b == [b[0]] + b[1..];
      }
    }
  }

  lemma {:induction false} LessTransitive(a: string, b: string, c: string)
    requires Less(a, b) && Less(b, c)
    ensures Less(a, c)
  {
    if a != [] && a[0] == b[0] && b[0] == c[0] {
      LessTransitive(a[1..], b[1..], c[1..]);
    }
  }

  predicate Sorted(s: seq<string>)
  {
    forall i, j :: 0 <= i < j < |s| ==> LessEq(s[i], s[j])
  }

  predicate StrictlySorted(s: seq<string>)
  {
    forall i, j :: 0 <= i < j < |s| ==> Less(s[i], s[j])
  }

  predicate Distinct(s: seq<string>)
  {
    forall i, j :: 0 <= i < j < |s| ==> s[i] != s[j]
  }

  /** Puts `x` in front of the first element it does not exceed. */
  function Insert(x: string, r: seq<string>): (q: seq<string>)
    ensures multiset(q) == multiset(r) + multiset{x}
    ensures Sorted(r) ==> Sorted(q)
  {
    if r == [] then [x]
    else if LessEq(x, r[0]) then
      assert Sorted(r) ==> Sorted([x] + r) by {
        if Sorted(r) { InsertFrontSorted(x, r); }
      }
      [x] + r
    else
      var tail := Insert(x, r[1..]);
      assert multiset(r) == multiset{r[0]} + multiset(r[1..]) by { assert r == [r[0]] + r[1..]; }
      assert Sorted(r) ==> Sorted([r[0]] + tail) by {
        if Sorted(r) { InsertBehindSorted(x, r, tail); }
      }
      [r[0]] + tail
  }

  lemma InsertFrontSorted(x: string, r: seq<string>)
    requires Sorted(r) && r != [] && LessEq(x, r[0])
    ensures Sorted([x] + r)
  {
    forall j | 0 <= j < |r| ensures LessEq(x, r[j]) {
      if x != r[0] && r[0] != r[j] { LessTransitive(x, r[0], r[j]); }
    }
    assert forall j :: 0 <= j < |r| ==> ([x] + r)[j + 1] == r[j];
  }

  lemma InsertBehindSorted(x: string, r: seq<string>, tail: seq<string>)
    requires Sorted(r) && r != [] && !LessEq(x, r[0])
    requires Sorted(tail) && multiset(tail) == multiset(r[1..]) + multiset{x}
    ensures Sorted([r[0]] + tail)
  {
    LessTrichotomy(x, r[0]);
    forall k | 0 <= k < |tail| ensures LessEq(r[0], tail[k]) {
      assert tail[k] in multiset(tail);
      if tail[k] != x {
        assert tail[k] in multiset(r[1..]);
        var j :| 0 <= j < |r[1..]| && r[1..][j] == tail[k];
        assert r[j + 1] == tail[k];
      }
    }
    assert forall k :: 0 <= k < |tail| ==> ([r[0]] + tail)[k + 1] == tail[k];
  }

  /** Insertion sort: a sorted permutation of the input. */
  function SortStrings(s: seq<string>): (r: seq<string>)
    ensures multiset(r) == multiset(s)
    ensures Sorted(r)
  {
    if s == [] then []
    else
      assert s == [s[0]] + s[1..];
      Insert(s[0], SortStrings(s[1..]))
  }

  lemma {:induction false} InsertDistinct(x: string, r: seq<string>)
    requires Distinct(r) && x !in r
    ensures Distinct(Insert(x, r))
  {
    if r != [] && !LessEq(x, r[0]) {
      InsertDistinct(x, r[1..]);
      var tail := Insert(x, r[1..]);
      assert r[0] !in multiset(tail);
    }
  }

  lemma {:induction false} SortDistinct(s: seq<string>)
    requires Distinct(s)
    ensures Distinct(SortStrings(s))
  {
    if s != [] {
      SortDistinct(s[1..]);
      assert s[0] !in multiset(SortStrings(s[1..]));
      InsertDistinct(s[0], SortStrings(s[1..]));
    }
  }

  /** Sorting a duplicate-free sequence gives a strictly ascending one. */
  lemma SortStrictlySorted(s: seq<string>)
    requires Distinct(s)
    ensures StrictlySorted(SortStrings(s))
  {
    SortDistinct(s);
  }

  /** The head of a non-empty sequence is one of its elements. */
  lemma FirstIsMember(s: seq<string>)
    ensures s != [] ==> s[0] in s
  {
  }

  lemma SortedFirstLeast(a: seq<string>)
    requires StrictlySorted(a) && a != []
    ensures forall x :: x in a ==> LessEq(a[0], x)
  {
  }

  /** A strictly ascending sequence is determined by its elements. */
  lemma {:induction false} StrictlySortedUnique(a: seq<string>, b: seq<string>)
    requires StrictlySorted(a) && StrictlySorted(b)
    requires forall x :: x in a <==> x in b
    ensures a == b
    decreases |a|
  {
    if a != [] {
      assert a[0] in a;
      assert b[0] in b;
      SortedFirstLeast(a);
      SortedFirstLeast(b);
      LessTrichotomy(a[0], b[0]);
      assert a[0] == b[0];
      forall x ensures x in a[1..] <==> x in b[1..] {
        if x in a[1..] {
          var j :| 1 <= j < |a| && a[j] == x;
          LessIrreflexive(x);
          assert x in b && x != b[0];
          assert b == [b[0]] + b[1..];
        }
        if x in b[1..] {
          var j :| 1 <= j < |b| && b[j] == x;
          LessIrreflexive(x);
          assert x in a && x != a[0];
          assert a == [a[0]] + a[1..];
        }
      }
      StrictlySortedUnique(a[1..], b[1..]);
      assert a == [a[0]] + a[1..] && b == [b[0]] + b[1..];
    } else {
      FirstIsMember(b);
    }
  }
}
