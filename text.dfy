/**
 * Strings as Python compares and sorts them: `<=` on `str` is lexicographic
 * on code points, with a proper prefix ordered first, and `sorted` returns
 * the ascending arrangement of its input.
 */
module Text {

  /** `a` is an initial segment of `b`. */
  predicate IsPrefix(a: string, b: string)
  {
    |a| <= |b| && a == b[..|a|]
  }

  /** At the first position where `a` and `b` differ, `a` holds the smaller code point. */
  predicate SmallerAtFirstDifference(a: string, b: string)
  {
    exists k :: 0 <= k < |a| && k < |b| && a[..k] == b[..k] && a[k] < b[k]
  }

  lemma HeadsDiffer(a: string, b: string)
    requires |a| > 0 && |b| > 0 && a[0] != b[0]
    ensures !IsPrefix(a, b)
    ensures SmallerAtFirstDifference(a, b) <==> a[0] < b[0]
  {
    if a[0] < b[0] {
      assert a[..0] == b[..0];
    }
    if SmallerAtFirstDifference(a, b) {
      var k :| 0 <= k < |a| && k < |b| && a[..k] == b[..k] && a[k] < b[k];
    }
  }

  lemma HeadsEqualPrefix(a: string, b: string)
    requires |a| > 0 && |b| > 0 && a[0] == b[0]
    ensures IsPrefix(a, b) <==> IsPrefix(a[1..], b[1..])
  {
    if IsPrefix(a[1..], b[1..]) {
      assert a == [a[0]] + a[1..] && b[..|a|] == [b[0]] + b[1..][..|a| - 1];
    }
    if IsPrefix(a, b) {
      assert a[1..] == b[..|a|][1..];
    }
  }

  lemma HeadsEqualDifference(a: string, b: string)
    requires |a| > 0 && |b| > 0 && a[0] == b[0]
    ensures SmallerAtFirstDifference(a, b) <==> SmallerAtFirstDifference(a[1..], b[1..])
  {
    var a', b' := a[1..], b[1..];
    if SmallerAtFirstDifference(a, b) {
      var k :| 0 <= k < |a| && k < |b| && a[..k] == b[..k] && a[k] < b[k];
      assert k != 0;
      assert a'[..k - 1] == a[..k][1..] && b'[..k - 1] == b[..k][1..];
      assert a'[k - 1] == a[k] && b'[k - 1] == b[k];
      assert 0 <= k - 1 < |a'| && k - 1 < |b'| && a'[..k - 1] == b'[..k - 1] && a'[k - 1] < b'[k - 1];
    }
    if SmallerAtFirstDifference(a', b') {
      var k :| 0 <= k < |a'| && k < |b'| && a'[..k] == b'[..k] && a'[k] < b'[k];
      assert a[..k + 1] == [a[0]] + a'[..k] && b[..k + 1] == [b[0]] + b'[..k];
      assert a[k + 1] == a'[k] && b[k + 1] == b'[k];
    }
  }

  /** Python's `a <= b` on two strings. */
  predicate LessEq(a: string, b: string)
    decreases |a|
  {
    if |a| == 0 then true
    else if |b| == 0 then false
    else if a[0] != b[0] then a[0] < b[0]
    else LessEq(a[1..], b[1..])
  }

  /**
   * The order is lexicographic on code points: `a <= b` exactly when `a` is a
   * prefix of `b` or holds the smaller code point where the two first differ.
   */
  lemma {:induction false} LessEqIsLexicographic(a: string, b: string)
    ensures LessEq(a, b) <==> IsPrefix(a, b) || SmallerAtFirstDifference(a, b)
    decreases |a|
  {
    if |a| > 0 && |b| > 0 {
      if a[0] != b[0] {
        HeadsDiffer(a, b);
      } else {
        HeadsEqualPrefix(a, b);
        HeadsEqualDifference(a, b);
        LessEqIsLexicographic(a[1..], b[1..]);
      }
    }
  }

  lemma {:induction false} LessEqReflexive(a: string)
    ensures LessEq(a, a)
    decreases |a|
  {
    if |a| > 0 {
      LessEqReflexive(a[1..]);
    }
  }

  /** Any two strings are comparable. */
  lemma {:induction false} LessEqTotal(a: string, b: string)
    ensures LessEq(a, b) || LessEq(b, a)
    decreases |a|
  {
    if |a| > 0 && |b| > 0 && a[0] == b[0] {
      LessEqTotal(a[1..], b[1..]);
    }
  }

  lemma {:induction false} LessEqAntisymmetric(a: string, b: string)
    requires LessEq(a, b) && LessEq(b, a)
    ensures a == b
    decreases |a|
  {
    if |a| > 0 {
      LessEqAntisymmetric(a[1..], b[1..]);
      assert a == [a[0]] + a[1..] && b == [b[0]] + b[1..];
    }
  }

  lemma {:induction false} LessEqTransitive(a: string, b: string, c: string)
    requires LessEq(a, b) && LessEq(b, c)
    ensures LessEq(a, c)
    decreases |a|
  {
    if |a| > 0 && a[0] == b[0] && b[0] == c[0] {
      LessEqTransitive(a[1..], b[1..], c[1..]);
    }
  }

  /** Ascending: every element is `<=` every later one. */
  ghost predicate Sorted(s: seq<string>)
  {
    forall i, j :: 0 <= i < j < |s| ==> LessEq(s[i], s[j])
  }

  /** The head of an ascending sequence is `<=` each of its elements. */
  lemma SortedHeadLeast(a: seq<string>, x: string)
    requires Sorted(a) && x in multiset(a)
    ensures LessEq(a[0], x)
  {
    var i :| 0 <= i < |a| && a[i] == x;
    if i == 0 { LessEqReflexive(x); }
  }

  lemma SortedTail(a: seq<string>)
    requires Sorted(a) && a != []
    ensures Sorted(a[1..])
  {
    forall i, j | 0 <= i < j < |a| - 1 ensures LessEq(a[1..][i], a[1..][j]) {
      assert a[1..][i] == a[i + 1] && a[1..][j] == a[j + 1];
    }
  }

  lemma MultisetTail(a: seq<string>)
    requires a != []
    ensures multiset(a[1..]) == multiset(a) - multiset{a[0]}
  {
    assert a == [a[0]] + a[1..];
  }

  /** Prefixing an ascending sequence with an element `<=` all of its elements keeps it ascending. */
  lemma SortedCons(y: string, s: seq<string>)
    requires Sorted(s)
    requires forall z :: z in multiset(s) ==> LessEq(y, z)
    ensures Sorted([y] + s)
  {
    forall i, j | 0 <= i < j < |[y] + s| ensures LessEq(([y] + s)[i], ([y] + s)[j]) {
      if i == 0 {
        assert ([y] + s)[j] == s[j - 1] && s[j - 1] in multiset(s);
      } else {
        assert ([y] + s)[i] == s[i - 1] && ([y] + s)[j] == s[j - 1];
      }
    }
  }

  /** The head of an ascending sequence is `<=` every element of its tail. */
  lemma SortedHeadBelowTail(s: seq<string>)
    requires Sorted(s) && s != []
    ensures forall z :: z in multiset(s[1..]) ==> LessEq(s[0], z)
  {
    forall z | z in multiset(s[1..]) ensures LessEq(s[0], z) {
      var j :| 0 <= j < |s[1..]| && s[1..][j] == z;
      assert s[j + 1] == z;
    }
  }

  /** Inserts `x` into an ascending sequence, keeping it ascending. */
  function Insert(x: string, s: seq<string>): (r: seq<string>)
    requires Sorted(s)
    ensures Sorted(r)
    ensures multiset(r) == multiset(s) + multiset{x}
  {
    if s == [] then
      [x]
    else if LessEq(x, s[0]) then
      assert forall z :: z in multiset(s) ==> LessEq(x, z) by {
        forall z | z in multiset(s) ensures LessEq(x, z) {
          SortedHeadLeast(s, z);
          LessEqTransitive(x, s[0], z);
        }
      }
      SortedCons(x, s);
      [x] + s
    else
      LessEqTotal(x, s[0]);
      SortedTail(s);
      MultisetTail(s);
      SortedHeadBelowTail(s);
      var rest := Insert(x, s[1..]);
      SortedCons(s[0], rest);
      [s[0]] + rest
  }

  /** Python's `sorted` on a list of strings (the result is unique, see SortedUnique). */
  function Sort(s: seq<string>): (r: seq<string>)
    ensures Sorted(r)
    ensures multiset(r) == multiset(s)
  {
    if s == [] then
      []
    else
      assert s == [s[0]] + s[1..];
      Insert(s[0], Sort(s[1..]))
  }

  /**
   * Two ascending arrangements of the same strings are equal, so the result
   * of `sorted` is determined by its input multiset whatever the algorithm.
   */
  lemma {:induction false} SortedUnique(a: seq<string>, b: seq<string>)
    requires Sorted(a) && Sorted(b)
    requires multiset(a) == multiset(b)
    ensures a == b
    decreases |a|
  {
    if a == [] {
      assert |multiset(b)| == 0;
    } else {
      SortedSameHead(a, b);
      MultisetTail(a);
      MultisetTail(b);
      SortedTail(a);
      SortedTail(b);
      SortedUnique(a[1..], b[1..]);
      assert a == [a[0]] + a[1..] && b == [b[0]] + b[1..];
    }
  }

  /** Two non-empty ascending arrangements of the same strings start alike. */
  lemma SortedSameHead(a: seq<string>, b: seq<string>)
    requires Sorted(a) && Sorted(b) && a != []
    requires multiset(a) == multiset(b)
    ensures b != [] && a[0] == b[0]
  {
    assert a[0] in multiset(a);
    assert b != [];
    assert b[0] in multiset(b);
    SortedHeadLeast(a, b[0]);
    SortedHeadLeast(b, a[0]);
    LessEqAntisymmetric(a[0], b[0]);
  }

  /** No string occurs twice. */
  predicate NoDuplicates(s: seq<string>)
  {
    forall i, j :: 0 <= i < j < |s| ==> s[i] != s[j]
  }

  /** A sequence has no duplicates exactly when every element has multiplicity at most one. */
  lemma {:induction false} NoDuplicatesMultiset(s: seq<string>)
    ensures NoDuplicates(s) <==> forall x :: multiset(s)[x] <= 1
    decreases |s|
  {
    if s != [] {
      NoDuplicatesMultiset(s[1..]);
      assert s == [s[0]] + s[1..];
      assert multiset(s) == multiset{s[0]} + multiset(s[1..]);
      if NoDuplicates(s) {
        assert s[0] !in s[1..];
      }
      if forall x :: multiset(s)[x] <= 1 {
        assert multiset(s[1..])[s[0]] == 0;
        assert forall x :: multiset(s[1..])[x] <= multiset(s)[x];
        forall i, j | 0 <= i < j < |s| ensures s[i] != s[j] {
          if i == 0 { assert s[1..][j - 1] == s[j]; assert s[j] in multiset(s[1..]); }
          else { assert s[1..][i - 1] == s[i] && s[1..][j - 1] == s[j]; }
        }
      }
    }
  }

  /** Count of `c` in `s`, Python's `s.count(c)` for a one-character `c`. */
  function Count(s: string, c: char): nat
  {
    if s == [] then 0 else (if s[0] == c then 1 else 0) + Count(s[1..], c)
  }

  lemma {:induction false} CountAppend(a: string, b: string, c: char)
    ensures Count(a + b, c) == Count(a, c) + Count(b, c)
    decreases |a|
  {
    if a != [] {
      var ab := a + b;
      assert ab[0] == a[0] && ab[1..] == a[1..] + b;
      CountAppend(a[1..], b, c);
      assert Count(ab, c) == (if ab[0] == c then 1 else 0) + Count(ab[1..], c);
    } else {
      assert a + b == b;
    }
  }

  /** ASCII upper-case letter. */
  predicate IsUpper(c: char)
  {
    'A' <= c <= 'Z'
  }

  /** Python's `str.lower` restricted to ASCII: A-Z map to a-z, every other character is kept. */
  function LowerChar(c: char): (r: char)
    ensures !IsUpper(r)
    ensures !IsUpper(c) ==> r == c
  {
    if IsUpper(c) then (c as int - 'A' as int + 'a' as int) as char else c
  }

  /** ASCII decimal digit. */
  predicate IsDigit(c: char)
  {
    '0' <= c <= '9'
  }

  function DigitChar(d: nat): (c: char)
    requires d < 10
    ensures IsDigit(c)
  {
    ('0' as int + d) as char
  }

  function DigitValue(c: char): (d: nat)
    requires IsDigit(c)
    ensures d < 10 && DigitChar(d) == c
  {
    c as int - '0' as int
  }
}
