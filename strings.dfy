/** Character and string helpers: the code-point order that `sorted` and (standing in
    for the locale) `localeCompare` sort by, Python's notion of whitespace, JavaScript's
    `toLowerCase` on ASCII letters and the substring test of Python's `in`. */
module Strings {
  import opened Collections

  /** Lexicographic order on code points: `a` is not after `b`. */
  predicate AtMost(a: string, b: string) {
    a == [] || (b != [] && (a[0] < b[0] || (a[0] == b[0] && AtMost(a[1..], b[1..]))))
  }

  /** `a` strictly before `b`. */
  predicate Below(a: string, b: string) {
    AtMost(a, b) && a != b
  }

  lemma {:induction false} AtMostReflexive(a: string)
    ensures AtMost(a, a)
  {
    if a != [] {
      AtMostReflexive(a[1..]);
    }
  }

  lemma {:induction false} AtMostTotal(a: string, b: string)
    ensures AtMost(a, b) || AtMost(b, a)
  {
    if a != [] && b != [] && a[0] == b[0] {
      AtMostTotal(a[1..], b[1..]);
    }
  }

  lemma {:induction false} AtMostAntisymmetric(a: string, b: string)
    requires AtMost(a, b) && AtMost(b, a)
    ensures a == b
  {
    if a != [] && b != [] {
      AtMostAntisymmetric(a[1..], b[1..]);
      assert a == [a[0]] + a[1..] && b == [b[0]] + b[1..];
    }
  }

  lemma {:induction false} AtMostTransitive(a: string, b: string, c: string)
    requires AtMost(a, b) && AtMost(b, c)
    ensures AtMost(a, c)
  {
    if a != [] && b != [] && c != [] && a[0] == b[0] == c[0] {
      AtMostTransitive(a[1..], b[1..], c[1..]);
    }
  }

  /** Non-decreasing in code-point order. */
  predicate Sorted(s: seq<string>) {
    forall i, j :: 0 <= i < j < |s| ==> AtMost(s[i], s[j])
  }

  /** Strictly increasing: sorted and free of duplicates. */
  predicate Ascending(s: seq<string>) {
    forall i, j :: 0 <= i < j < |s| ==> Below(s[i], s[j])
  }

  lemma SortedDistinctIsAscending(s: seq<string>)
    requires Sorted(s) && Distinct(s)
    ensures Ascending(s)
  {
  }

  function InsertString(x: string, s: seq<string>): (r: seq<string>)
    requires Sorted(s)
    ensures Sorted(r)
    ensures multiset(r) == multiset(s) + multiset{x}
  {
    if s == [] || AtMost(x, s[0]) then
      assert forall j :: 0 <= j < |s| ==> AtMost(x, s[j]) by {
        forall j | 0 < j < |s| ensures AtMost(x, s[j]) {
          AtMostTransitive(x, s[0], s[j]);
        }
      }
      [x] + s
    else
      AtMostTotal(x, s[0]);
      var rest := InsertString(x, s[1..]);
      assert s == [s[0]] + s[1..];
      assert forall j :: 0 <= j < |rest| ==> AtMost(s[0], rest[j]) by {
        forall j | 0 <= j < |rest| ensures AtMost(s[0], rest[j]) {
          assert rest[j] in multiset(rest);
          if rest[j] != x {
            assert rest[j] in multiset(s[1..]);
            var k :| 0 <= k < |s[1..]| && s[1..][k] == rest[j];
            assert s[k + 1] == rest[j];
          }
        }
      }
      [s[0]] + rest
  }

  /** Python's `sorted` on strings, and `Array.prototype.sort` with `localeCompare`
      read as code-point order: a sorted permutation of the input. */
  function SortStrings(s: seq<string>): (r: seq<string>)
    ensures Sorted(r)
    ensures multiset(r) == multiset(s)
  {
    if s == [] then []
    else
      assert s == [s[0]] + s[1..];
      InsertString(s[0], SortStrings(s[1..]))
  }

  /** Sorting the members of a set gives them strictly ascending, each exactly once. */
  lemma SortSetAscending(s: seq<string>)
    requires Distinct(s)
    ensures Ascending(SortStrings(s))
    ensures forall x :: x in SortStrings(s) <==> x in s
  {
    var r := SortStrings(s);
    PermutationKeepsDistinct(s, r);
    SortedDistinctIsAscending(r);
    forall x ensures x in r <==> x in s {
      assert x in r <==> x in multiset(r);
    }
  }

  /** Two strictly ascending sequences with the same members are equal: the result of
      sorting a set does not depend on the order the set enumerates in. */
  lemma {:induction false} AscendingUnique(a: seq<string>, b: seq<string>)
    requires Ascending(a) && Ascending(b)
    requires forall x :: x in a <==> x in b
    ensures a == b
  {
    if a != [] {
      assert a[0] in b;
    }
    if b != [] {
      assert b[0] in a;
    }
    if a != [] && b != [] {
      var i :| 0 <= i < |a| && a[i] == b[0];
      var j :| 0 <= j < |b| && b[j] == a[0];
      AtMostReflexive(a[0]);
      assert AtMost(a[0], b[0]) by { assert i == 0 || Below(a[0], a[i]); }
      assert AtMost(b[0], a[0]) by { assert j == 0 || Below(b[0], b[j]); }
      AtMostAntisymmetric(a[0], b[0]);
      forall x ensures x in a[1..] <==> x in b[1..] {
        if x in a[1..] {
          var k :| 1 <= k < |a| && a[k] == x;
          assert Below(a[0], a[k]);
          assert x in b;
        }
        if x in b[1..] {
          var k :| 1 <= k < |b| && b[k] == x;
          assert Below(b[0], b[k]);
          assert x in a;
        }
      }
      AscendingUnique(a[1..], b[1..]);
      assert a == [a[0]] + a[1..] && b == [b[0]] + b[1..];
    }
  }

  /** Python's whitespace (`str.isspace`, the set `str.split()` and `str.rstrip()` use). */
  predicate IsSpace(c: char) {
    || '\U{9}' <= c <= '\U{D}'
    || '\U{1C}' <= c <= '\U{20}'
    || c == '\U{85}' || c == '\U{A0}' || c == '\U{1680}'
    || '\U{2000}' <= c <= '\U{200A}'
    || c == '\U{2028}' || c == '\U{2029}' || c == '\U{202F}' || c == '\U{205F}' || c == '\U{3000}'
  }

  predicate IsUpper(c: char) { 'A' <= c <= 'Z' }

  function LowerChar(c: char): (d: char)
    ensures !IsUpper(d)
    ensures IsUpper(c) ==> 'a' <= d <= 'z' && d as int - c as int == 32
    ensures !IsUpper(c) ==> d == c
  {
    if IsUpper(c) then (c as int + 32) as char else c
  }

  /** `String.prototype.toLowerCase`, on the ASCII letters. */
  function Lower(s: string): (r: string)
    ensures |r| == |s|
    ensures forall i :: 0 <= i < |r| ==> !IsUpper(r[i])
    ensures forall i :: 0 <= i < |s| && !IsUpper(s[i]) ==> r[i] == s[i]
  {
    seq(|s|, i requires 0 <= i < |s| => LowerChar(s[i]))
  }

  predicate IsPrefix(p: string, s: string) {
    |p| <= |s| && s[..|p|] == p
  }

  /** Python's `sub in s`. */
  predicate Contains(s: string, sub: string)
    decreases |s|
  {
    IsPrefix(sub, s) || (s != [] && Contains(s[1..], sub))
  }

  /** `sub` occurs in `s` starting at index `i`. */
  predicate OccursAt(s: string, sub: string, i: nat) {
    i + |sub| <= |s| && s[i..i + |sub|] == sub
  }

  /** `sub in s` holds exactly when `sub` occurs at some position of `s`. */
  lemma {:induction false} ContainsIff(s: string, sub: string)
    ensures Contains(s, sub) <==> exists i: nat :: OccursAt(s, sub, i)
    decreases |s|
  {
    if IsPrefix(sub, s) {
      assert OccursAt(s, sub, 0);
    }
    if s != [] {
      ContainsIff(s[1..], sub);
      forall i: nat | OccursAt(s[1..], sub, i) ensures OccursAt(s, sub, i + 1) {
        assert s[i + 1..i + 1 + |sub|] == s[1..][i..i + |sub|];
      }
      forall i: nat | OccursAt(s, sub, i) && i > 0 ensures OccursAt(s[1..], sub, i - 1) {
        assert s[1..][i - 1..i - 1 + |sub|] == s[i..i + |sub|];
      }
    }
  }
}
