/** The iteration order of a JavaScript `Map` whose keys were inserted in ascending order:
    `Array.from(m.values())` lists the values by ascending key. */
module OrderedMaps {

  predicate IsLeast(k: int, ks: set<int>) {
    k in ks && forall j :: j in ks ==> k <= j
  }

  /** A set other than the empty set has an element. */
  lemma HasElement(ks: set<int>)
    requires ks != {}
    ensures exists k :: k in ks
  {
    assert (forall k :: k !in ks) ==> ks == {};
  }

  lemma {:induction false} LeastExists(ks: set<int>)
    requires ks != {}
    ensures exists k :: IsLeast(k, ks)
    decreases |ks|
  {
    HasElement(ks);
    var x :| x in ks;
    if ks == {x} {
      assert IsLeast(x, ks);
    } else {
      var rest := ks - {x};
      assert rest != {} by {
        assert ks == rest + {x};
      }
      LeastExists(rest);
      var m :| IsLeast(m, rest);
      if x < m {
        forall j | j in ks ensures x <= j {
          if j != x { assert j in rest; }
        }
        assert IsLeast(x, ks);
      } else {
        forall j | j in ks ensures m <= j {
          if j != x { assert j in rest; }
        }
        assert IsLeast(m, ks);
      }
    }
  }

  /** The smallest key. */
  function Least(ks: set<int>): (k: int)
    requires ks != {}
    ensures IsLeast(k, ks)
  {
    LeastExists(ks);
    var k :| IsLeast(k, ks);
    k
  }

  /** The keys, smallest first. */
  function SortedKeys(ks: set<int>): (r: seq<int>)
    ensures |r| == |ks|
    ensures forall k :: k in r <==> k in ks
    ensures forall i, j :: 0 <= i < j < |r| ==> r[i] < r[j]
    decreases |ks|
  {
    if ks == {} then []
    else
      var k := Least(ks);
      var rest := SortedKeys(ks - {k});
      LeastFirst(k, ks, rest);
      [k] + rest
  }

  /** The least key followed by the others in ascending order lists all keys in ascending order. */
  lemma LeastFirst(k: int, ks: set<int>, rest: seq<int>)
    requires IsLeast(k, ks)
    requires |rest| == |ks - {k}|
    requires forall j :: j in rest <==> j in ks - {k}
    requires forall i, j :: 0 <= i < j < |rest| ==> rest[i] < rest[j]
    ensures |[k] + rest| == |ks|
    ensures forall j :: j in [k] + rest <==> j in ks
    ensures forall i, j :: 0 <= i < j < |[k] + rest| ==> ([k] + rest)[i] < ([k] + rest)[j]
  {
    forall i | 0 <= i < |rest| ensures k < rest[i] {
      assert rest[i] in rest;
    }
    assert |ks| == |ks - {k}| + 1 by {
      assert ks == (ks - {k}) + {k};
    }
  }

  /** `Array.from(m.values())`: the values of `m` by ascending key. */
  function Values<T>(m: map<int, T>): (r: seq<T>)
    ensures |r| == |m|
    ensures forall i :: 0 <= i < |r| ==> SortedKeys(m.Keys)[i] in m && r[i] == m[SortedKeys(m.Keys)[i]]
  {
    var ks := SortedKeys(m.Keys);
    assert forall i :: 0 <= i < |ks| ==> ks[i] in m by {
      forall i | 0 <= i < |ks| ensures ks[i] in m {
        assert ks[i] in ks;
      }
    }
    seq(|ks|, i requires 0 <= i < |ks| => m[ks[i]])
  }

  /** Every value of the map is listed, and nothing else. */
  lemma ValuesListsMap<T>(m: map<int, T>, x: T)
    ensures x in Values(m) <==> exists k :: k in m && m[k] == x
  {
    var ks := SortedKeys(m.Keys);
    if exists k :: k in m && m[k] == x {
      var k :| k in m && m[k] == x;
      var i :| 0 <= i < |ks| && ks[i] == k;
      assert Values(m)[i] == x;
    }
  }

  /** `Array.from(m.values())` for a map whose keys were first inserted in the order `keys`. */
  function InOrder<V>(m: map<int, V>, keys: seq<int>): seq<V>
    requires forall i :: 0 <= i < |keys| ==> keys[i] in m
  {
    seq(|keys|, i requires 0 <= i < |keys| => m[keys[i]])
  }
}
