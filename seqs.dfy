/** `Array.prototype.filter` and `Array.prototype.find` over Dafny sequences. */
module Seqs {

  import opened Optional

  /** The elements of `s` that satisfy `p`, in their original order. */
  function Filter<T(!new)>(s: seq<T>, p: T -> bool): (r: seq<T>)
    ensures |r| <= |s|
    ensures forall i :: 0 <= i < |r| ==> p(r[i])
    decreases |s|
  {
    if s == [] then []
    else
      var init, last := s[..|s| - 1], s[|s| - 1];
      assert s == init + [last];
      Filter(init, p) + (if p(last) then [last] else [])
  }

  /** Filtering keeps exactly the elements that satisfy the test. */
  lemma {:induction false} FilterMembers<T(!new)>(s: seq<T>, p: T -> bool, x: T)
    ensures x in Filter(s, p) <==> x in s && p(x)
    decreases |s|
  {
    if s != [] {
      var init, last := s[..|s| - 1], s[|s| - 1];
      assert s == init + [last];
      FilterMembers(init, p, x);
    }
  }

  /** Filtering keeps every occurrence of a kept element and drops every occurrence of the others. */
  lemma {:induction false} FilterMultiplicity<T(!new)>(s: seq<T>, p: T -> bool, x: T)
    ensures multiset(Filter(s, p))[x] == if p(x) then multiset(s)[x] else 0
    decreases |s|
  {
    if s != [] {
      var init, last := s[..|s| - 1], s[|s| - 1];
      assert s == init + [last];
      FilterMultiplicity(init, p, x);
    }
  }

  /** Filtering keeps order: filtering a concatenation concatenates the filtered parts. */
  lemma {:induction false} FilterAppend<T(!new)>(a: seq<T>, b: seq<T>, p: T -> bool)
    ensures Filter(a + b, p) == Filter(a, p) + Filter(b, p)
    decreases |b|
  {
    if b != [] {
      var init := b[..|b| - 1];
      assert (a + b)[..|a + b| - 1] == a + init;
      FilterAppend(a, init, p);
    } else {
      assert a + b == a;
    }
  }

  /** `idx` lists, in increasing order, positions of `s` that hold the elements of `r`. */
  ghost predicate IndexedBy<T>(idx: seq<int>, r: seq<T>, s: seq<T>) {
    && |idx| == |r|
    && (forall k :: 0 <= k < |idx| ==> 0 <= idx[k] < |s| && s[idx[k]] == r[k])
    && (forall k, l :: 0 <= k < l < |idx| ==> idx[k] < idx[l])
  }

  /** `r` is `s` with some elements left out, the others in their original order. */
  ghost predicate SubsequenceOf<T>(r: seq<T>, s: seq<T>) {
    exists idx :: IndexedBy(idx, r, s)
  }

  /** A list is a subsequence of itself, and the empty list of every list. */
  lemma SubsequenceTrivial<T>(s: seq<T>)
    ensures SubsequenceOf(s, s) && SubsequenceOf([], s)
  {
    var all := seq(|s|, i => i);
    assert IndexedBy(all, s, s);
    assert IndexedBy([], [], s);
  }

  /** Filtering keeps the relative order of what it keeps. */
  lemma {:induction false} FilterOrder<T(!new)>(s: seq<T>, p: T -> bool) returns (idx: seq<int>)
    ensures IndexedBy(idx, Filter(s, p), s)
    decreases |s|
  {
    if s == [] {
      idx := [];
    } else {
      var init, last := s[..|s| - 1], s[|s| - 1];
      var front := FilterOrder(init, p);
      assert forall k :: 0 <= k < |front| ==> s[front[k]] == init[front[k]];
      idx := if p(last) then front + [|s| - 1] else front;
    }
  }

  /** Filtering keeps the relative order of what it keeps. */
  lemma FilterSubsequence<T(!new)>(s: seq<T>, p: T -> bool)
    ensures SubsequenceOf(Filter(s, p), s)
  {
    var idx := FilterOrder(s, p);
  }

  /** The first element of `s` that satisfies `p`, if any. */
  function Find<T>(s: seq<T>, p: T -> bool): (r: Option<T>)
    ensures r.None? <==> forall i :: 0 <= i < |s| ==> !p(s[i])
    ensures r.Some? ==> exists i :: 0 <= i < |s| && s[i] == r.value && p(s[i]) && forall j :: 0 <= j < i ==> !p(s[j])
    decreases |s|
  {
    if s == [] then None
    else if p(s[0]) then Some(s[0])
    else
      var r := Find(s[1..], p);
      assert r.Some? ==> exists i :: 1 <= i < |s| && s[i] == r.value && p(s[i]) && forall j :: 0 <= j < i ==> !p(s[j]) by {
        if r.Some? {
          var i :| 0 <= i < |s[1..]| && s[1..][i] == r.value && p(s[1..][i]) && forall j :: 0 <= j < i ==> !p(s[1..][j]);
          assert forall j :: 1 <= j < i + 1 ==> !p(s[j]) by {
            forall j | 1 <= j < i + 1 ensures !p(s[j]) {
              assert s[j] == s[1..][j - 1];
            }
          }
        }
      }
      r
  }

  /** No element occurs twice. */
  ghost predicate Distinct<T>(s: seq<T>) {
    forall i, j :: 0 <= i < j < |s| ==> s[i] != s[j]
  }

  /** A sequence has no repeated element exactly when it holds each element at most once. */
  lemma {:induction false} DistinctOnce<T>(s: seq<T>)
    ensures Distinct(s) <==> forall x :: multiset(s)[x] <= 1
    decreases |s|
  {
    if s != [] {
      var init, last := s[..|s| - 1], s[|s| - 1];
      assert s == init + [last];
      assert multiset(s) == multiset(init) + multiset{last};
      DistinctOnce(init);
      if Distinct(s) {
        assert Distinct(init) by {
          forall i, j | 0 <= i < j < |init| ensures init[i] != init[j] {
            assert init[i] == s[i] && init[j] == s[j];
          }
        }
        assert last !in init;
      }
      if forall x :: multiset(s)[x] <= 1 {
        assert forall x :: multiset(init)[x] <= 1 by {
          forall x ensures multiset(init)[x] <= 1 {
            assert multiset(init)[x] <= multiset(s)[x];
          }
        }
        assert multiset(init)[last] == 0 by {
          assert multiset(s)[last] == multiset(init)[last] + 1;
        }
        forall i, j | 0 <= i < j < |s| ensures s[i] != s[j] {
          assert s[i] == init[i] && init[i] in init;
          if j < |s| - 1 {
            assert s[j] == init[j];
          }
        }
      }
    }
  }

  /** Filtering a sequence without repetitions gives one without repetitions. */
  lemma FilterDistinct<T(!new)>(s: seq<T>, p: T -> bool)
    requires Distinct(s)
    ensures Distinct(Filter(s, p))
  {
    DistinctOnce(s);
    forall x ensures multiset(Filter(s, p))[x] <= 1 {
      FilterMultiplicity(s, p, x);
    }
    DistinctOnce(Filter(s, p));
  }

  /** A rearrangement of a sequence without repetitions has none. */
  lemma PermutationDistinct<T>(s: seq<T>, t: seq<T>)
    requires multiset(s) == multiset(t) && Distinct(s)
    ensures Distinct(t)
  {
    DistinctOnce(s);
    DistinctOnce(t);
  }
}
