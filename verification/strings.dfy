/**
 * The string operations the hash benchmark relies on: ASCII lower-casing,
 * Rust's `Ord` on strings (lexicographic; for `char` sequences this agrees
 * with the byte-wise order of their UTF-8 encodings), substring search, and
 * the sorted list of distinct names.
 */
module Strings {

  predicate IsAsciiUpper(c: char)
  {
    'A' <= c <= 'Z'
  }

  /** `char::to_ascii_lowercase`: maps `A`..`Z` to `a`..`z` and leaves every other character alone. */
  function LowerChar(c: char): char
  {
    if IsAsciiUpper(c) then (c as int + 32) as char else c
  }

  /** `str::to_ascii_lowercase`. */
  function ToAsciiLowercase(s: string): (r: string)
    ensures |r| == |s|
    ensures forall i :: 0 <= i < |s| ==> r[i] == LowerChar(s[i])
  {
    seq(|s|, i requires 0 <= i < |s| => LowerChar(s[i]))
  }

  /** Lower-casing leaves no ASCII capital behind, changes nothing else, and is idempotent. */
  lemma LowercaseProperties(s: string)
    ensures forall i :: 0 <= i < |s| ==> !IsAsciiUpper(ToAsciiLowercase(s)[i])
    ensures forall i :: 0 <= i < |s| && !IsAsciiUpper(s[i]) ==> ToAsciiLowercase(s)[i] == s[i]
    ensures ToAsciiLowercase(ToAsciiLowercase(s)) == ToAsciiLowercase(s)
  {
  }

  /**
   * `a <= b` in Rust's lexicographic order on strings: `a` is a prefix of `b`,
   * or at the first position where they differ `a` has the smaller character.
   */
  function LexLe(a: string, b: string): (r: bool)
    ensures r <==> a <= b || FirstDifferenceBelow(a, b)
  {
    FirstDifferenceStep(a, b);
    if a == [] then true
    else if b == [] then false
    else if a[0] != b[0] then a[0] < b[0]
    else LexLe(a[1..], b[1..])
  }

  /** `a` and `b` agree before position `k`, where `a` has the smaller character. */
  ghost predicate FirstDifferenceBelow(a: string, b: string)
  {
    exists k :: 0 <= k < |a| && k < |b| && a[..k] == b[..k] && a[k] < b[k]
  }

  /** How the prefix relation and the first difference look at the first character. */
  lemma FirstDifferenceStep(a: string, b: string)
    ensures a != [] && b == [] ==> !(a <= b) && !FirstDifferenceBelow(a, b)
    ensures a != [] && b != [] && a[0] != b[0] ==> !(a <= b) && (FirstDifferenceBelow(a, b) <==> a[0] < b[0])
    ensures a != [] && b != [] && a[0] == b[0] ==>
      && (a <= b <==> a[1..] <= b[1..])
      && (FirstDifferenceBelow(a, b) <==> FirstDifferenceBelow(a[1..], b[1..]))
  {
    if a != [] && b != [] && a[0] != b[0] && a[0] < b[0] {
      assert a[..0] == b[..0];
    }
    if a != [] && b != [] && a[0] == b[0] {
      FirstDifferenceTail(a, b);
      if a[1..] <= b[1..] {
        assert a == [a[0]] + a[1..];
        assert b[..|a|] == [b[0]] + b[1..][..|a| - 1];
      }
    }
  }

  /** Past a common first character, the first difference is the tails' first difference. */
  lemma FirstDifferenceTail(a: string, b: string)
    requires a != [] && b != [] && a[0] == b[0]
    ensures FirstDifferenceBelow(a, b) <==> FirstDifferenceBelow(a[1..], b[1..])
  {
    if FirstDifferenceBelow(a, b) {
      var k :| 0 <= k < |a| && k < |b| && a[..k] == b[..k] && a[k] < b[k];
      assert k > 0;
      assert a[1..][..k - 1] == a[..k][1..] == b[..k][1..] == b[1..][..k - 1];
      assert a[1..][k - 1] < b[1..][k - 1];
    }
    if FirstDifferenceBelow(a[1..], b[1..]) {
      var k :| 0 <= k < |a[1..]| && k < |b[1..]| && a[1..][..k] == b[1..][..k] && a[1..][k] < b[1..][k];
      assert a[..k + 1] == [a[0]] + a[1..][..k];
      assert b[..k + 1] == [b[0]] + b[1..][..k];
      assert a[k + 1] < b[k + 1];
    }
  }

  /** `a < b` in Rust's lexicographic order on strings. */
  predicate LexLt(a: string, b: string)
  {
    LexLe(a, b) && a != b
  }

  lemma {:induction false} LexLeTotal(a: string, b: string)
    ensures LexLe(a, b) || LexLe(b, a)
  {
    if a != [] && b != [] && a[0] == b[0] {
      LexLeTotal(a[1..], b[1..]);
    }
  }

  lemma {:induction false} LexLeTransitive(a: string, b: string, c: string)
    requires LexLe(a, b) && LexLe(b, c)
    ensures LexLe(a, c)
  {
    if a != [] && b != [] && c != [] && a[0] == b[0] && b[0] == c[0] {
      LexLeTransitive(a[1..], b[1..], c[1..]);
    }
  }

  lemma {:induction false} LexLeAntisymmetric(a: string, b: string)
    requires LexLe(a, b) && LexLe(b, a)
    ensures a == b
  {
    if a != [] && b != [] {
      LexLeAntisymmetric(a[1..], b[1..]);
      assert a == [a[0]] + a[1..];
      assert b == [b[0]] + b[1..];
    }
  }

  /** `LexLe` is a total order on strings. */
  lemma LexLeTotalOrder()
    ensures forall a, b :: LexLe(a, b) || LexLe(b, a)
    ensures forall a, b, c :: LexLe(a, b) && LexLe(b, c) ==> LexLe(a, c)
    ensures forall a, b :: LexLe(a, b) && LexLe(b, a) ==> a == b
  {
    forall a, b
      ensures LexLe(a, b) || LexLe(b, a)
    {
      LexLeTotal(a, b);
    }
    forall a, b, c | LexLe(a, b) && LexLe(b, c)
      ensures LexLe(a, c)
    {
      LexLeTransitive(a, b, c);
    }
    forall a, b | LexLe(a, b) && LexLe(b, a)
      ensures a == b
    {
      LexLeAntisymmetric(a, b);
    }
  }

  /** `needle` occurs in `hay` starting at position `i`. */
  predicate OccursAt(hay: string, needle: string, i: int)
  {
    0 <= i && i + |needle| <= |hay| && hay[i..i + |needle|] == needle
  }

  /** `str::contains` with a string pattern: `needle` occurs somewhere in `hay`; the empty pattern occurs everywhere. */
  function Contains(hay: string, needle: string): (r: bool)
    ensures r <==> exists i :: OccursAt(hay, needle, i)
    decreases |hay|
  {
    OccursStep(hay, needle);
    (|needle| <= |hay| && hay[..|needle|] == needle) || (hay != [] && Contains(hay[1..], needle))
  }

  /** An occurrence is at the front, or is an occurrence in the tail shifted by one. */
  lemma OccursStep(hay: string, needle: string)
    ensures (exists i :: OccursAt(hay, needle, i)) <==>
      OccursAt(hay, needle, 0) || (hay != [] && exists i :: OccursAt(hay[1..], needle, i))
  {
    if hay != [] {
      if i :| OccursAt(hay[1..], needle, i) {
        assert hay[1..][i..i + |needle|] == hay[i + 1..i + 1 + |needle|];
        assert OccursAt(hay, needle, i + 1);
      }
      if i :| OccursAt(hay, needle, i) {
        if i > 0 {
          assert hay[1..][i - 1..i - 1 + |needle|] == hay[i..i + |needle|];
          assert OccursAt(hay[1..], needle, i - 1);
        }
      }
    }
  }

  /** Every pair of positions is in strictly increasing order: sorted, with no repeats. */
  ghost predicate StrictlyIncreasing(s: seq<string>)
  {
    forall i, j :: 0 <= i < j < |s| ==> LexLt(s[i], s[j])
  }

  /** Adds `x` to a strictly increasing list unless it is already there. */
  function InsertDistinct(x: string, t: seq<string>): (r: seq<string>)
    ensures forall y :: y in r <==> y == x || y in t
  {
    if t == [] then [x]
    else if x == t[0] then t
    else if LexLe(x, t[0]) then [x] + t
    else [t[0]] + InsertDistinct(x, t[1..])
  }

  /** The distinct strings of `names`, in increasing order (a set collected and then sorted). */
  function SortedDistinct(names: seq<string>): (r: seq<string>)
    ensures forall y :: y in r <==> y in names
  {
    if names == [] then [] else InsertDistinct(names[0], SortedDistinct(names[1..]))
  }

  lemma {:induction false} InsertDistinctIncreasing(x: string, t: seq<string>)
    requires StrictlyIncreasing(t)
    ensures StrictlyIncreasing(InsertDistinct(x, t))
  {
    if t != [] && x != t[0] {
      LexLeTotalOrder();
      if !LexLe(x, t[0]) {
        InsertDistinctIncreasing(x, t[1..]);
        var tail := InsertDistinct(x, t[1..]);
        forall j | 0 <= j < |tail|
          ensures LexLt(t[0], tail[j])
        {
          assert tail[j] in tail;
          if tail[j] != x {
            var k :| 0 <= k < |t[1..]| && t[1..][k] == tail[j];
            assert t[k + 1] == tail[j];
          }
        }
      }
    }
  }

  /** The listed names are strictly increasing. */
  lemma {:induction false} SortedDistinctIncreasing(names: seq<string>)
    ensures StrictlyIncreasing(SortedDistinct(names))
  {
    if names != [] {
      SortedDistinctIncreasing(names[1..]);
      InsertDistinctIncreasing(names[0], SortedDistinct(names[1..]));
    }
  }

  lemma HeadIsLeast(s: seq<string>, y: string)
    requires StrictlyIncreasing(s) && y in s
    ensures y == s[0] || LexLt(s[0], y)
  {
  }

  /**
   * A strictly increasing list is determined by its elements, so the listing
   * does not depend on the order in which the set of names was collected.
   */
  lemma {:induction false} StrictlyIncreasingUnique(a: seq<string>, b: seq<string>)
    requires StrictlyIncreasing(a) && StrictlyIncreasing(b)
    requires forall y :: y in a <==> y in b
    ensures a == b
    decreases |a|
  {
    if a != [] {
      assert a[0] in b;
    }
    if b != [] {
      assert b[0] in a;
    }
    if a != [] {
      HeadIsLeast(b, a[0]);
      HeadIsLeast(a, b[0]);
      if LexLt(b[0], a[0]) && LexLt(a[0], b[0]) {
        LexLeAntisymmetric(a[0], b[0]);
      }
      assert a[0] == b[0];
      forall y
        ensures y in a[1..] <==> y in b[1..]
      {
        if y in a[1..] {
          var k :| 0 <= k < |a[1..]| && a[1..][k] == y;
          assert LexLt(a[0], a[k + 1]);
          assert y in a;
          var m :| 0 <= m < |b| && b[m] == y;
          assert m != 0;
          assert b[1..][m - 1] == y;
        }
        if y in b[1..] {
          var k :| 0 <= k < |b[1..]| && b[1..][k] == y;
          assert LexLt(b[0], b[k + 1]);
          assert y in b;
          var m :| 0 <= m < |a| && a[m] == y;
          assert m != 0;
          assert a[1..][m - 1] == y;
        }
      }
      StrictlyIncreasingUnique(a[1..], b[1..]);
      assert a == [a[0]] + a[1..];
      assert b == [b[0]] + b[1..];
    }
  }
}
