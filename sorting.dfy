/** `Array.prototype.sort` with a comparator: a stable sort. `le(a, b)` holds when the comparator
    puts `a` before or level with `b` (`compare(a, b) <= 0`). */
module Sorting {

  /** Comparison chains. */
  ghost predicate Transitive<T(!new)>(le: (T, T) -> bool) {
    forall x, y, z :: le(x, y) && le(y, z) ==> le(x, z)
  }

  /** The comparator is consistent: any two elements compare, and comparison chains. */
  ghost predicate TotalPreorder<T(!new)>(le: (T, T) -> bool) {
    && (forall x, y :: le(x, y) || le(y, x))
    && Transitive(le)
  }

  ghost predicate SortedBy<T>(s: seq<T>, le: (T, T) -> bool) {
    forall i, j :: 0 <= i < j < |s| ==> le(s[i], s[j])
  }

  /** The elements of `s` that compare level with `x`, in their order in `s`. */
  function Ties<T>(s: seq<T>, x: T, le: (T, T) -> bool): seq<T>
    decreases |s|
  {
    if s == [] then []
    else
      var last := s[|s| - 1];
      Ties(s[..|s| - 1], x, le) + (if le(x, last) && le(last, x) then [last] else [])
  }

  /** Puts `x` after the last element that is not greater than it. */
  function InsertLast<T>(s: seq<T>, x: T, le: (T, T) -> bool): (r: seq<T>)
    ensures multiset(r) == multiset(s) + multiset{x}
    decreases |s|
  {
    if s == [] || le(s[|s| - 1], x) then s + [x]
    else
      var init, last := s[..|s| - 1], s[|s| - 1];
      assert s == init + [last];
      InsertLast(init, x, le) + [last]
  }

  /** The stable sort: each element in turn is placed after the earlier elements it does not precede. */
  function SortBy<T>(s: seq<T>, le: (T, T) -> bool): (r: seq<T>)
    ensures multiset(r) == multiset(s)
    decreases |s|
  {
    if s == [] then []
    else
      var init, last := s[..|s| - 1], s[|s| - 1];
      assert s == init + [last];
      InsertLast(SortBy(init, le), last, le)
  }

  lemma {:induction false} InsertLastSorted<T(!new)>(s: seq<T>, x: T, le: (T, T) -> bool)
    requires TotalPreorder(le) && SortedBy(s, le)
    ensures SortedBy(InsertLast(s, x, le), le)
    decreases |s|
  {
    if s == [] || le(s[|s| - 1], x) {
      var r := s + [x];
      forall i, j | 0 <= i < j < |r| ensures le(r[i], r[j]) {
        if j == |s| && i < |s| - 1 {
          assert le(s[i], s[|s| - 1]);
        }
      }
    } else {
      var init, last := s[..|s| - 1], s[|s| - 1];
      InsertLastSorted(init, x, le);
      var front := InsertLast(init, x, le);
      forall e | e in front ensures le(e, last) {
        assert e in multiset(front);
        if e != x {
          var i :| 0 <= i < |init| && init[i] == e;
          assert le(s[i], s[|s| - 1]);
        }
      }
      var r := front + [last];
      forall i, j | 0 <= i < j < |r| ensures le(r[i], r[j]) {
        if j == |front| {
          assert r[i] in front;
        }
      }
    }
  }

  /** The sort orders its output. */
  lemma {:induction false} SortBySorted<T(!new)>(s: seq<T>, le: (T, T) -> bool)
    requires TotalPreorder(le)
    ensures SortedBy(SortBy(s, le), le)
    decreases |s|
  {
    if s != [] {
      SortBySorted(s[..|s| - 1], le);
      InsertLastSorted(SortBy(s[..|s| - 1], le), s[|s| - 1], le);
    }
  }

  lemma {:induction false} TiesAppend<T>(a: seq<T>, b: seq<T>, y: T, le: (T, T) -> bool)
    ensures Ties(a + b, y, le) == Ties(a, y, le) + Ties(b, y, le)
    decreases |b|
  {
    if b == [] {
      assert a + b == a;
    } else {
      assert (a + b)[..|a + b| - 1] == a + b[..|b| - 1];
      TiesAppend(a, b[..|b| - 1], y, le);
    }
  }

  lemma TiesSingleton<T>(x: T, y: T, le: (T, T) -> bool)
    ensures Ties([x], y, le) == if le(y, x) && le(x, y) then [x] else []
  {
    assert [x][..0] == [];
  }

  /** Inserting `x` adds it at the end of its own ties and leaves every other element's ties in order. */
  lemma {:induction false} InsertLastTies<T(!new)>(s: seq<T>, x: T, y: T, le: (T, T) -> bool)
    requires Transitive(le)
    ensures Ties(InsertLast(s, x, le), y, le) == Ties(s, y, le) + Ties([x], y, le)
    decreases |s|
  {
    if s == [] || le(s[|s| - 1], x) {
      TiesAppend(s, [x], y, le);
    } else {
      var init, last := s[..|s| - 1], s[|s| - 1];
      assert s == init + [last];
      var front := InsertLast(init, x, le);
      assert InsertLast(s, x, le) == front + [last];
      var tx, tl := Ties([x], y, le), Ties([last], y, le);
      assert Ties(front + [last], y, le) == Ties(init, y, le) + tx + tl by {
        InsertLastTies(init, x, y, le);
        TiesAppend(front, [last], y, le);
      }
      assert Ties(s, y, le) == Ties(init, y, le) + tl by {
        TiesAppend(init, [last], y, le);
      }
      assert tx == [] || tl == [] by {
        TiesSingleton(x, y, le);
        TiesSingleton(last, y, le);
        assert le(last, y) && le(y, x) ==> le(last, x);
      }
      SwapEmpty(Ties(init, y, le), tx, tl);
    }
  }

  /** Two pieces of which one is empty can be appended in either order. */
  lemma SwapEmpty<T>(a: seq<T>, b: seq<T>, c: seq<T>)
    requires b == [] || c == []
    ensures a + b + c == a + c + b
  {
  }

  /** The sort is stable: elements that compare level keep their original order. */
  lemma {:induction false} SortByStable<T(!new)>(s: seq<T>, y: T, le: (T, T) -> bool)
    requires TotalPreorder(le)
    ensures Ties(SortBy(s, le), y, le) == Ties(s, y, le)
    decreases |s|
  {
    if s != [] {
      var init, last := s[..|s| - 1], s[|s| - 1];
      SortByStable(init, y, le);
      InsertLastTies(SortBy(init, le), last, y, le);
      assert [last][..0] == [];
    }
  }

  /** Sorting neither adds nor drops an element. */
  lemma SortByMembers<T>(s: seq<T>, le: (T, T) -> bool)
    ensures forall x :: x in SortBy(s, le) <==> x in s
  {
    forall x ensures x in SortBy(s, le) <==> x in s {
      assert x in SortBy(s, le) <==> x in multiset(SortBy(s, le));
      assert x in s <==> x in multiset(s);
    }
  }
}
