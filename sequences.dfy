/**
 * The Ruby collection methods the platform pipeline is written with
 * (`select`, `filter_map`), as functions on sequences, together with the
 * order-preserving subsequence relation that describes them.
 */
module Sequences {
  import opened Wrappers

  /** `r` is obtained from `s` by deleting elements, keeping the rest in order. */
  predicate IsSubsequence<T(==)>(r: seq<T>, s: seq<T>)
    decreases |s|
  {
    if s == [] then r == []
    else (r != [] && r[0] == s[0] && IsSubsequence(r[1..], s[1..])) || IsSubsequence(r, s[1..])
  }

  lemma {:induction false} SubsequenceMultiset<T>(r: seq<T>, s: seq<T>)
    requires IsSubsequence(r, s)
    ensures |r| <= |s| && multiset(r) <= multiset(s)
    decreases |s|
  {
    if s != [] {
      assert s == [s[0]] + s[1..];
      if r != [] && r[0] == s[0] && IsSubsequence(r[1..], s[1..]) {
        SubsequenceMultiset(r[1..], s[1..]);
        assert r == [r[0]] + r[1..];
      } else {
        SubsequenceMultiset(r, s[1..]);
      }
    }
  }

  lemma {:induction false} SubsequenceTransitive<T>(a: seq<T>, b: seq<T>, c: seq<T>)
    requires IsSubsequence(a, b) && IsSubsequence(b, c)
    ensures IsSubsequence(a, c)
    decreases |c|
  {
    if c != [] {
      if b != [] && b[0] == c[0] && IsSubsequence(b[1..], c[1..]) {
        if a != [] && a[0] == b[0] && IsSubsequence(a[1..], b[1..]) {
          SubsequenceTransitive(a[1..], b[1..], c[1..]);
        } else {
          SubsequenceTransitive(a, b[1..], c[1..]);
        }
      } else {
        SubsequenceTransitive(a, b, c[1..]);
      }
    }
  }

  /** A subsequence as long as the sequence is the sequence itself. */
  lemma {:induction false} SubsequenceOfSameSize<T>(r: seq<T>, s: seq<T>)
    requires IsSubsequence(r, s) && |r| == |s|
    ensures r == s
    decreases |s|
  {
    if s != [] {
      if r != [] && r[0] == s[0] && IsSubsequence(r[1..], s[1..]) {
        SubsequenceOfSameSize(r[1..], s[1..]);
        assert r == [r[0]] + r[1..];
      } else {
        SubsequenceMultiset(r, s[1..]);
        assert false;
      }
    }
  }

  /**
   * Ruby's `select`: the elements of `s` that `keep` accepts, in their order,
   * with every accepted element kept as often as it occurs in `s`.
   */
  function Select<T(==,!new)>(s: seq<T>, keep: T -> bool): (r: seq<T>)
    ensures IsSubsequence(r, s)
    ensures |r| <= |s| && multiset(r) <= multiset(s)
    ensures forall i :: 0 <= i < |r| ==> keep(r[i])
    ensures forall x {:trigger multiset(r)[x]} :: keep(x) ==> multiset(r)[x] == multiset(s)[x]
    decreases |s|
  {
    if s == [] then []
    else
      var rest := Select(s[1..], keep);
      assert s == [s[0]] + s[1..];
      if keep(s[0]) then [s[0]] + rest else rest
  }

  /** `Select` keeps an element exactly when it occurs in the input and is accepted. */
  lemma SelectMembership<T(!new)>(s: seq<T>, keep: T -> bool, x: T)
    ensures x in Select(s, keep) <==> x in s && keep(x)
  {
    var r := Select(s, keep);
    if x in r {
      assert x in multiset(r);
    }
    if x in s && keep(x) {
      assert multiset(r)[x] == multiset(s)[x] > 0;
    }
  }

  /**
   * Ruby's `filter_map`: `f` applied to every element, the `nil` results
   * dropped, the others kept in order.
   */
  function FilterMap<T, U>(s: seq<T>, f: T -> Option<U>): (r: seq<U>)
    ensures |r| <= |s|
    ensures forall i :: 0 <= i < |r| ==> exists j :: 0 <= j < |s| && f(s[j]) == Some(r[i])
    ensures forall j :: 0 <= j < |s| && f(s[j]).Some? ==> f(s[j]).value in r
    decreases |s|
  {
    if s == [] then []
    else
      var rest := FilterMap(s[1..], f);
      assert forall i :: 0 <= i < |rest| ==> exists j :: 1 <= j < |s| && f(s[j]) == Some(rest[i]) by {
        forall i | 0 <= i < |rest| ensures exists j :: 1 <= j < |s| && f(s[j]) == Some(rest[i]) {
          var k :| 0 <= k < |s| - 1 && f(s[1..][k]) == Some(rest[i]);
          assert f(s[k + 1]) == Some(rest[i]);
        }
      }
      match f(s[0])
      case Some(v) => [v] + rest
      case None => rest
  }

  /** `Select` returns nothing exactly when no element is accepted (Ruby's `any?` on its result). */
  lemma SelectEmpty<T(!new)>(s: seq<T>, keep: T -> bool)
    ensures |Select(s, keep)| == 0 <==> forall i :: 0 <= i < |s| ==> !keep(s[i])
  {
    if |Select(s, keep)| == 0 {
      forall i | 0 <= i < |s| ensures !keep(s[i]) {
        SelectMembership(s, keep, s[i]);
      }
    } else {
      SelectMembership(s, keep, Select(s, keep)[0]);
    }
  }

  /** `s` is ordered by `key`, smallest first. */
  predicate SortedBy<T>(s: seq<T>, key: T -> int)
  {
    forall i, j :: 0 <= i < j < |s| ==> key(s[i]) <= key(s[j])
  }

  function InsertBy<T(!new)>(x: T, sorted: seq<T>, key: T -> int): (r: seq<T>)
    requires SortedBy(sorted, key)
    ensures SortedBy(r, key)
    ensures |r| == |sorted| + 1 && multiset(r) == multiset(sorted) + multiset{x}
    ensures r[0] == x || (sorted != [] && r[0] == sorted[0])
    ensures forall y {:trigger y in r} :: y in r <==> y == x || y in sorted
    decreases |sorted|
  {
    if sorted == [] || key(x) <= key(sorted[0]) then
      [x] + sorted
    else
      assert sorted == [sorted[0]] + sorted[1..];
      [sorted[0]] + InsertBy(x, sorted[1..], key)
  }

  /** Ruby's `sort_by`: a permutation of `s` ordered by `key`. */
  function SortBy<T(!new)>(s: seq<T>, key: T -> int): (r: seq<T>)
    ensures SortedBy(r, key)
    ensures |r| == |s| && multiset(r) == multiset(s)
    ensures forall x {:trigger x in r} {:trigger x in s} :: x in r <==> x in s
    decreases |s|
  {
    if s == [] then []
    else
      assert s == [s[0]] + s[1..];
      InsertBy(s[0], SortBy(s[1..], key), key)
  }

  /** Two orderings of the same elements by an injective key are the same sequence. */
  lemma {:induction false} SortedPermutationsEqual<T>(a: seq<T>, b: seq<T>, key: T -> int)
    requires forall x, y :: key(x) == key(y) ==> x == y
    requires SortedBy(a, key) && SortedBy(b, key) && multiset(a) == multiset(b)
    ensures a == b
    decreases |a|
  {
    if a == [] {
      assert |b| == |multiset(b)| == 0;
    } else {
      SortedHeadsEqual(a, b, key);
      SortedTail(a, key);
      SortedTail(b, key);
      TailMultisets(a, b);
      SortedPermutationsEqual(a[1..], b[1..], key);
      assert a == [a[0]] + a[1..] && b == [b[0]] + b[1..];
    }
  }

  /** Two non-empty orderings of the same elements by an injective key start alike. */
  lemma SortedHeadsEqual<T>(a: seq<T>, b: seq<T>, key: T -> int)
    requires forall x, y :: key(x) == key(y) ==> x == y
    requires a != [] && SortedBy(a, key) && SortedBy(b, key) && multiset(a) == multiset(b)
    ensures b != [] && a[0] == b[0]
  {
    assert a[0] in multiset(b);
    var i :| 0 <= i < |b| && b[i] == a[0];
    assert b[0] in multiset(a);
    var j :| 0 <= j < |a| && a[j] == b[0];
    assert key(a[0]) <= key(a[j]);
    assert key(b[0]) <= key(b[i]);
  }

  /** Removing the same first element from two sequences with equal multisets leaves equal multisets. */
  lemma TailMultisets<T>(a: seq<T>, b: seq<T>)
    requires a != [] && b != [] && a[0] == b[0] && multiset(a) == multiset(b)
    ensures multiset(a[1..]) == multiset(b[1..])
  {
    assert a == [a[0]] + a[1..] && b == [b[0]] + b[1..];
    assert multiset(a[1..]) == multiset(a) - multiset{a[0]};
    assert multiset(b[1..]) == multiset(b) - multiset{a[0]};
  }

  lemma SortedTail<T>(s: seq<T>, key: T -> int)
    requires s != [] && SortedBy(s, key)
    ensures SortedBy(s[1..], key)
  {
    forall i, j | 0 <= i < j < |s[1..]| ensures key(s[1..][i]) <= key(s[1..][j]) {
      assert s[1..][i] == s[i + 1] && s[1..][j] == s[j + 1];
    }
  }

  /** Sorting by an injective key is canonical: two sequences sort alike exactly when they hold the same elements. */
  lemma SortIsCanonical<T(!new)>(a: seq<T>, b: seq<T>, key: T -> int)
    requires forall x, y :: key(x) == key(y) ==> x == y
    ensures SortBy(a, key) == SortBy(b, key) <==> multiset(a) == multiset(b)
  {
    if multiset(a) == multiset(b) {
      SortedPermutationsEqual(SortBy(a, key), SortBy(b, key), key);
    }
  }

  /** Swapping the last two of three elements keeps the multiset. */
  lemma SwapLastTwo<T>(x: T, y: T, z: T)
    ensures multiset([x, z, y]) == multiset([x, y, z])
  {
  }

  /** A prefix takes no element more often than the whole sequence has it. */
  lemma PrefixMultiset<T>(s: seq<T>, n: nat)
    requires n <= |s|
    ensures multiset(s[..n]) <= multiset(s)
  {
    assert s == s[..n] + s[n..];
    assert multiset(s) == multiset(s[..n]) + multiset(s[n..]);
  }

  /** An element that occurs at one position only occurs once. */
  lemma CountOfUnique<T>(s: seq<T>, i: nat)
    requires i < |s|
    requires forall j :: 0 <= j < |s| && j != i ==> s[j] != s[i]
    ensures multiset(s)[s[i]] == 1
  {
    assert s == s[..i] + [s[i]] + s[i + 1..];
    assert s[i] !in s[..i];
    assert s[i] !in s[i + 1..];
  }

  /** A sequence whose multiset is a single element is that element alone. */
  lemma SingletonMultiset<T>(r: seq<T>, x: T)
    requires multiset(r) == multiset{x}
    ensures r == [x]
  {
    assert |r| == 1;
    assert r[0] in multiset(r);
  }
}
