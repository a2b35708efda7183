/** Sequence helpers shared by the blog-post queries and the Terraform directory scan:
    the list operations both sources lean on (filter, set-based de-duplication and a
    sort by a numeric key). */
module Collections {

  datatype Option<T> = None | Some(value: T)

  function Min(a: int, b: int): (m: int) {
    if a <= b then a else b
  }

  function Max(a: int, b: int): (m: int) {
    if a <= b then b else a
  }

  /** No element occurs twice. */
  predicate Distinct<T(==)>(s: seq<T>) {
    forall i, j :: 0 <= i < j < |s| ==> s[i] != s[j]
  }

  /** `a` is `b` with some elements dropped and the order of the rest kept. */
  predicate IsSubsequence<T(==)>(a: seq<T>, b: seq<T>)
    decreases |b|
  {
    if a == [] then true
    else if b == [] then false
    else (a[0] == b[0] && IsSubsequence(a[1..], b[1..])) || IsSubsequence(a, b[1..])
  }

  lemma {:induction false} SubsequenceExtend<T>(a: seq<T>, b: seq<T>, x: T)
    requires IsSubsequence(a, b)
    ensures IsSubsequence(a + [x], b + [x])
    decreases |b|
  {
    if a == [] {
      assert a + [x] == [x];
      SubsequenceOfSingleton(b, x);
    } else if a[0] == b[0] && IsSubsequence(a[1..], b[1..]) {
      SubsequenceExtend(a[1..], b[1..], x);
      assert (a + [x])[1..] == a[1..] + [x];
      assert (b + [x])[1..] == b[1..] + [x];
    } else {
      SubsequenceExtend(a, b[1..], x);
      assert (b + [x])[1..] == b[1..] + [x];
    }
  }

  lemma {:induction false} SubsequenceOfSingleton<T>(b: seq<T>, x: T)
    ensures IsSubsequence([x], b + [x])
    decreases |b|
  {
    if b != [] {
      SubsequenceOfSingleton(b[1..], x);
      assert (b + [x])[1..] == b[1..] + [x];
    }
  }

  /** Every element of a subsequence occurs in the full sequence. */
  lemma {:induction false} SubsequenceMembers<T>(a: seq<T>, b: seq<T>)
    requires IsSubsequence(a, b)
    ensures forall x :: x in a ==> x in b
    decreases |b|
  {
    if a != [] && b != [] {
      if a[0] == b[0] && IsSubsequence(a[1..], b[1..]) {
        SubsequenceMembers(a[1..], b[1..]);
        assert a == [a[0]] + a[1..] && b == [b[0]] + b[1..];
      } else {
        SubsequenceMembers(a, b[1..]);
        assert b == [b[0]] + b[1..];
      }
    }
  }

  /** Dropping elements keeps the rest in order. */
  lemma {:induction false} SubsequenceKeepsOrder<T>(a: seq<T>, b: seq<T>, key: T -> int)
    requires IsSubsequence(a, b) && SortedByKeyDesc(b, key)
    ensures SortedByKeyDesc(a, key)
    decreases |b|
  {
    if a != [] && b != [] {
      if a[0] == b[0] && IsSubsequence(a[1..], b[1..]) {
        SubsequenceKeepsOrder(a[1..], b[1..], key);
        SubsequenceMembers(a[1..], b[1..]);
        forall j | 0 <= j < |a[1..]| ensures key(a[1..][j]) <= key(a[0]) {
          assert a[1..][j] in b[1..];
          var k :| 0 <= k < |b[1..]| && b[1..][k] == a[1..][j];
          assert b[k + 1] == a[1..][j];
        }
        ConsSorted(a[0], a[1..], key);
        assert a == [a[0]] + a[1..];
      } else {
        SubsequenceKeepsOrder(a, b[1..], key);
      }
    }
  }

  /** Array.prototype.filter, and the `if` clause of a Python comprehension: keeps the
      elements that satisfy `keep`, in their original order and with their multiplicity. */
  function Filter<T(==,!new)>(s: seq<T>, keep: T -> bool): (r: seq<T>)
    ensures forall x :: x in r <==> x in s && keep(x)
    ensures forall x :: multiset(r)[x] == if keep(x) then multiset(s)[x] else 0
    ensures IsSubsequence(r, s)
  {
    if s == [] then []
    else
      assert s == [s[0]] + s[1..];
      if keep(s[0]) then [s[0]] + Filter(s[1..], keep)
      else Filter(s[1..], keep)
  }

  /** `a` occurs in `s` before any occurrence of `b`. */
  predicate SeenBefore<T(==)>(s: seq<T>, a: T, b: T) {
    exists k :: 0 <= k < |s| && s[k] == a && b !in s[..k]
  }

  /** The elements of `r` come in the order in which they first occur in `s`. */
  predicate FirstSeenOrder<T(==)>(r: seq<T>, s: seq<T>) {
    forall i, j {:trigger SeenBefore(s, r[i], r[j])} :: 0 <= i < j < |r| ==> SeenBefore(s, r[i], r[j])
  }

  /** The elements of `s` as `Array.from(new Set(s))` gives them: each once, in the order
      of their first occurrence (the insertion order of a JavaScript `Set`). */
  function Dedupe<T(==,!new)>(s: seq<T>): (r: seq<T>)
    ensures Distinct(r)
    ensures forall x :: x in r <==> x in s
    ensures IsSubsequence(r, s)
    ensures FirstSeenOrder(r, s)
  {
    if s == [] then []
    else
      var init, last := s[..|s| - 1], s[|s| - 1];
      assert s == init + [last];
      var r' := Dedupe(init);
      FirstSeenOrderExtend(r', init, last);
      if last in r' then
        SubsequenceOfPrefix(r', init, last);
        r'
      else
        SubsequenceExtend(r', init, last);
        r' + [last]
  }

  /** Appending to `s` keeps the order of its first occurrences, and a new element comes
      after all of them. */
  lemma FirstSeenOrderExtend<T>(r: seq<T>, s: seq<T>, x: T)
    requires FirstSeenOrder(r, s)
    requires forall y :: y in r ==> y in s
    ensures FirstSeenOrder(r, s + [x])
    ensures x !in s ==> FirstSeenOrder(r + [x], s + [x])
  {
    var s' := s + [x];
    forall a, b | SeenBefore(s, a, b) ensures SeenBefore(s', a, b) {
      var k :| 0 <= k < |s| && s[k] == a && b !in s[..k];
      assert s'[..k] == s[..k];
    }
    if x !in s {
      forall a | a in s ensures SeenBefore(s', a, x) {
        var k :| 0 <= k < |s| && s[k] == a;
        assert s'[..k] == s[..k];
      }
    }
  }

  /** Of two distinct elements, at most one occurs before the other. */
  lemma SeenBeforeAntisymmetric<T>(s: seq<T>, a: T, b: T)
    requires SeenBefore(s, a, b) && SeenBefore(s, b, a)
    ensures a == b
  {
    var k :| 0 <= k < |s| && s[k] == a && b !in s[..k];
    var l :| 0 <= l < |s| && s[l] == b && a !in s[..l];
  }

  /** The order of first occurrence fixes a duplicate-free list of given members: any such
      list is the one `Dedupe` computes. */
  lemma {:induction false} FirstSeenUnique<T>(a: seq<T>, b: seq<T>, s: seq<T>)
    requires Distinct(a) && Distinct(b)
    requires forall x :: x in a <==> x in b
    requires FirstSeenOrder(a, s) && FirstSeenOrder(b, s)
    ensures a == b
  {
    if a != [] {
      assert a[0] in b;
    }
    if b != [] {
      assert b[0] in a;
    }
    if a != [] && b != [] {
      var i :| 0 <= i < |a| && a[i] == b[0];
      var j :| 0 <= j < |b| && b[j] == a[0];
      if i != 0 && j != 0 {
        assert SeenBefore(s, a[0], a[i]);
        assert SeenBefore(s, b[0], b[j]);
        SeenBeforeAntisymmetric(s, a[0], b[0]);
      }
      assert a[0] == b[0];
      forall x ensures x in a[1..] <==> x in b[1..] {
        if x in a[1..] {
          var k :| 1 <= k < |a| && a[k] == x;
          assert x in b;
        }
        if x in b[1..] {
          var k :| 1 <= k < |b| && b[k] == x;
          assert x in a;
        }
      }
      assert FirstSeenOrder(a[1..], s) by {
        forall i', j' | 0 <= i' < j' < |a[1..]| ensures SeenBefore(s, a[1..][i'], a[1..][j']) {
          assert a[1..][i'] == a[i' + 1] && a[1..][j'] == a[j' + 1];
        }
      }
      assert FirstSeenOrder(b[1..], s) by {
        forall i', j' | 0 <= i' < j' < |b[1..]| ensures SeenBefore(s, b[1..][i'], b[1..][j']) {
          assert b[1..][i'] == b[i' + 1] && b[1..][j'] == b[j' + 1];
        }
      }
      FirstSeenUnique(a[1..], b[1..], s);
      assert a == [a[0]] + a[1..] && b == [b[0]] + b[1..];
    }
  }

  lemma {:induction false} SubsequenceOfPrefix<T>(a: seq<T>, b: seq<T>, x: T)
    requires IsSubsequence(a, b)
    ensures IsSubsequence(a, b + [x])
    decreases |b|
  {
    if a != [] && b != [] {
      assert (b + [x])[1..] == b[1..] + [x];
      if a[0] == b[0] && IsSubsequence(a[1..], b[1..]) {
        SubsequenceOfPrefix(a[1..], b[1..], x);
      } else {
        SubsequenceOfPrefix(a, b[1..], x);
      }
    }
  }

  /** An element of a duplicate-free sequence occurs in it at most once. */
  lemma {:induction false} DistinctCountsAtMostOne<T>(s: seq<T>, x: T)
    requires Distinct(s)
    ensures multiset(s)[x] <= 1
  {
    if s != [] {
      assert s == [s[0]] + s[1..];
      assert s[0] !in s[1..];
      DistinctCountsAtMostOne(s[1..], x);
    }
  }

  lemma PermutationMembers<T>(a: seq<T>, b: seq<T>)
    requires multiset(a) == multiset(b)
    ensures forall x :: x in a <==> x in b
  {
    forall x ensures x in a <==> x in b {
      assert x in a <==> x in multiset(a);
      assert x in b <==> x in multiset(b);
    }
  }

  /** A permutation of a duplicate-free sequence is duplicate-free. */
  lemma PermutationKeepsDistinct<T>(a: seq<T>, b: seq<T>)
    requires Distinct(a) && multiset(a) == multiset(b)
    ensures Distinct(b)
  {
    forall i, j | 0 <= i < j < |b| ensures b[i] != b[j] {
      if b[i] == b[j] {
        assert b == b[..j] + b[j..];
        assert b[i] in b[..j];
        assert b[j] in b[j..];
        assert multiset(b)[b[i]] == multiset(b[..j])[b[i]] + multiset(b[j..])[b[i]];
        DistinctCountsAtMostOne(a, b[i]);
        assert false;
      }
    }
  }

  /** Order produced by a descending comparator `(a, b) => key(b) - key(a)`. */
  predicate SortedByKeyDesc<T>(s: seq<T>, key: T -> int) {
    forall i, j :: 0 <= i < j < |s| ==> key(s[i]) >= key(s[j])
  }

  /** Puts `x` before the first element whose key is not larger. */
  function InsertByKeyDesc<T>(x: T, s: seq<T>, key: T -> int): (r: seq<T>)
    requires SortedByKeyDesc(s, key)
    ensures SortedByKeyDesc(r, key)
    ensures multiset(r) == multiset(s) + multiset{x}
  {
    if s == [] || key(s[0]) <= key(x) then
      assert forall j :: 0 <= j < |s| ==> key(s[j]) <= key(x);
      ConsSorted(x, s, key);
      [x] + s
    else
      var rest := InsertByKeyDesc(x, s[1..], key);
      assert s == [s[0]] + s[1..];
      assert forall j :: 0 <= j < |s[1..]| ==> key(s[1..][j]) <= key(s[0]);
      KeysBelow(rest, s[1..], x, key, key(s[0]));
      ConsSorted(s[0], rest, key);
      assert multiset([s[0]] + rest) == multiset{s[0]} + multiset(s[1..]) + multiset{x};
      [s[0]] + rest
  }

  lemma ConsSorted<T>(h: T, s: seq<T>, key: T -> int)
    requires SortedByKeyDesc(s, key)
    requires forall j :: 0 <= j < |s| ==> key(s[j]) <= key(h)
    ensures SortedByKeyDesc([h] + s, key)
  {
  }

  /** A permutation of `s` plus `x` has no key above a bound that `x` and all of `s`
      respect. */
  lemma KeysBelow<T>(r: seq<T>, s: seq<T>, x: T, key: T -> int, bound: int)
    requires multiset(r) == multiset(s) + multiset{x}
    requires key(x) <= bound
    requires forall j :: 0 <= j < |s| ==> key(s[j]) <= bound
    ensures forall j :: 0 <= j < |r| ==> key(r[j]) <= bound
  {
    forall j | 0 <= j < |r| ensures key(r[j]) <= bound {
      assert r[j] in multiset(r);
      if r[j] != x {
        assert r[j] in multiset(s);
        var k :| 0 <= k < |s| && s[k] == r[j];
      }
    }
  }

  /** A sort by `key`, largest key first. */
  function SortByKeyDesc<T>(s: seq<T>, key: T -> int): (r: seq<T>)
    ensures SortedByKeyDesc(r, key)
    ensures multiset(r) == multiset(s)
  {
    if s == [] then []
    else
      assert s == [s[0]] + s[1..];
      InsertByKeyDesc(s[0], SortByKeyDesc(s[1..], key), key)
  }

  /** The elements of `s` whose key is `k`, in their order in `s`. */
  ghost function Ties<T>(s: seq<T>, key: T -> int, k: int): (r: seq<T>)
    ensures |r| <= |s|
  {
    if s == [] then []
    else (if key(s[0]) == k then [s[0]] else []) + Ties(s[1..], key, k)
  }

  /** `r` lists the elements of each key in the order `s` lists them: what a stable sort
      such as Array.prototype.sort keeps. */
  ghost predicate KeepsTies<T>(r: seq<T>, s: seq<T>, key: T -> int) {
    forall k :: Ties(r, key, k) == Ties(s, key, k)
  }

  lemma TiesCons<T>(h: T, t: seq<T>, key: T -> int, k: int)
    ensures Ties([h] + t, key, k) == (if key(h) == k then [h] else []) + Ties(t, key, k)
  {
    assert ([h] + t)[1..] == t;
  }

  /** Inserting `x` puts it ahead of the elements that share its key and leaves the order
      among every other key as it was. */
  lemma {:induction false} InsertKeepsTies<T>(x: T, s: seq<T>, key: T -> int, k: int)
    requires SortedByKeyDesc(s, key)
    ensures Ties(InsertByKeyDesc(x, s, key), key, k) == (if key(x) == k then [x] else []) + Ties(s, key, k)
  {
    if s == [] || key(s[0]) <= key(x) {
      TiesCons(x, s, key, k);
    } else {
      var rest := InsertByKeyDesc(x, s[1..], key);
      assert InsertByKeyDesc(x, s, key) == [s[0]] + rest;
      assert s == [s[0]] + s[1..];
      InsertKeepsTies(x, s[1..], key, k);
      TiesCons(s[0], rest, key, k);
      TiesCons(s[0], s[1..], key, k);
      assert !(key(s[0]) == k && key(x) == k);
    }
  }

  /** The sort is stable: elements with equal keys keep their input order. */
  lemma {:induction false} SortKeepsTies<T>(s: seq<T>, key: T -> int, k: int)
    ensures Ties(SortByKeyDesc(s, key), key, k) == Ties(s, key, k)
  {
    if s != [] {
      assert s == [s[0]] + s[1..];
      SortKeepsTies(s[1..], key, k);
      InsertKeepsTies(s[0], SortByKeyDesc(s[1..], key), key, k);
      TiesCons(s[0], s[1..], key, k);
    }
  }

  lemma SortByKeyDescStable<T>(s: seq<T>, key: T -> int)
    ensures KeepsTies(SortByKeyDesc(s, key), s, key)
  {
    forall k { SortKeepsTies(s, key, k); }
  }

  /** Descending order plus the order within each key leave one possible sequence: a
      stable sort has exactly one result. */
  lemma {:induction false} SortedTiesUnique<T>(a: seq<T>, b: seq<T>, key: T -> int)
    requires SortedByKeyDesc(a, key) && SortedByKeyDesc(b, key)
    requires KeepsTies(a, b, key)
    ensures a == b
    decreases |a|
  {
    if a != [] && b != [] {
      HeadKeysEqual(a, b, key);
      TiesTail(a, b, key);
      assert SortedByKeyDesc(a[1..], key) && SortedByKeyDesc(b[1..], key);
      SortedTiesUnique(a[1..], b[1..], key);
      assert a == [a[0]] + a[1..] && b == [b[0]] + b[1..];
    } else if a != [] {
      TiesOfHead(a, key);
    } else if b != [] {
      TiesOfHead(b, key);
    }
  }

  /** Two sorted sequences with the same elements per key start with the same key. */
  lemma HeadKeysEqual<T>(a: seq<T>, b: seq<T>, key: T -> int)
    requires SortedByKeyDesc(a, key) && SortedByKeyDesc(b, key)
    requires KeepsTies(a, b, key)
    requires a != [] && b != []
    ensures key(a[0]) == key(b[0])
  {
    TiesOfHead(a, key);
    TiesOfHead(b, key);
    if key(a[0]) > key(b[0]) {
      TiesAbove(b, key, key(a[0]));
    } else if key(a[0]) < key(b[0]) {
      TiesAbove(a, key, key(b[0]));
    }
  }

  /** With equal head keys, the heads agree and the tails keep the same ties. */
  lemma TiesTail<T>(a: seq<T>, b: seq<T>, key: T -> int)
    requires KeepsTies(a, b, key)
    requires a != [] && b != [] && key(a[0]) == key(b[0])
    ensures a[0] == b[0] && KeepsTies(a[1..], b[1..], key)
  {
    var ka := key(a[0]);
    assert a == [a[0]] + a[1..] && b == [b[0]] + b[1..];
    forall k ensures Ties(a[1..], key, k) == Ties(b[1..], key, k) {
      assert Ties(a, key, k) == Ties(b, key, k);
      TiesCons(a[0], a[1..], key, k);
      TiesCons(b[0], b[1..], key, k);
      if k == ka {
        assert Ties(a[1..], key, k) == Ties(a, key, k)[1..];
        assert Ties(b[1..], key, k) == Ties(b, key, k)[1..];
      } else {
        assert Ties(a, key, k) == [] + Ties(a[1..], key, k) == Ties(a[1..], key, k);
        assert Ties(b, key, k) == [] + Ties(b[1..], key, k) == Ties(b[1..], key, k);
      }
    }
    assert Ties(a, key, ka) == Ties(b, key, ka);
    TiesCons(a[0], a[1..], key, ka);
    TiesCons(b[0], b[1..], key, ka);
    assert Ties(a, key, ka)[0] == a[0] && Ties(b, key, ka)[0] == b[0];
  }

  /** The first element is among the elements with its own key. */
  lemma TiesOfHead<T>(s: seq<T>, key: T -> int)
    requires s != []
    ensures Ties(s, key, key(s[0])) != []
  {
  }

  /** In a sequence sorted by descending key, no element has a key above the first. */
  lemma {:induction false} TiesAbove<T>(s: seq<T>, key: T -> int, k: int)
    requires SortedByKeyDesc(s, key)
    requires s != [] && key(s[0]) < k
    ensures Ties(s, key, k) == []
    decreases |s|
  {
    if |s| > 1 {
      TiesAbove(s[1..], key, k);
    }
  }
}
