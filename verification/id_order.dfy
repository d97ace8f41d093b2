/** The order in which the code walks a `HashMap<Integer, …>`. Java leaves
    that order to the table's buckets: it is ascending only while every id
    is below the table's capacity (with 16 buckets, ids 1 and 16 come out
    as 16, 1). The model fixes one order, ascending ids, wherever the code
    iterates a map; results that hold for every order do not depend on it. */
module IdOrder {
  import opened JavaTypes

  /** A non-empty set of ids has a least element: the smaller of one
      element and the least of the others. */
  lemma {:induction false} LeastOf(ids: set<Int32>) returns (least: Int32)
    requires ids != {}
    ensures least in ids && forall y :: y in ids ==> least <= y
    decreases |ids|
  {
    var x :| x in ids;
    var rest := ids - {x};
    if rest == {} {
      least := x;
      forall y | y in ids
        ensures least <= y
      {
        assert y !in rest;
      }
    } else {
      assert |rest| == |ids| - 1;
      var m := LeastOf(rest);
      least := if x < m then x else m;
      forall y | y in ids
        ensures least <= y
      {
        if y != x {
          assert y in rest;
        }
      }
    }
  }

  lemma MinExists(ids: set<Int32>)
    requires ids != {}
    ensures exists m :: m in ids && forall y :: y in ids ==> m <= y
  {
    var least := LeastOf(ids);
  }

  /** The least of a non-empty set of ids. */
  function MinOf(ids: set<Int32>): (m: Int32)
    requires ids != {}
    ensures m in ids && forall y :: y in ids ==> m <= y
  {
    MinExists(ids);
    var m :| m in ids && forall y :: y in ids ==> m <= y;
    m
  }

  /** Each element of `s` is smaller than every later one. */
  predicate StrictlyAscending(s: seq<Int32>)
  {
    forall i, j :: 0 <= i < j < |s| ==> s[i] < s[j]
  }

  /** `s` lists exactly the members of `ids`. */
  predicate Lists(s: seq<Int32>, ids: set<Int32>)
  {
    && (forall i :: 0 <= i < |s| ==> s[i] in ids)
    && (forall id :: id in ids ==> id in s)
  }

  /** Putting an id below all of `others` in front of an ascending listing
      of `others` gives an ascending listing of both. */
  lemma ListsCons(m: Int32, others: set<Int32>, rest: seq<Int32>)
    requires Lists(rest, others) && StrictlyAscending(rest)
    requires forall y :: y in others ==> m < y
    ensures Lists([m] + rest, others + {m})
    ensures StrictlyAscending([m] + rest)
  {
    var r := [m] + rest;
    forall i | 0 < i < |r|
      ensures r[i] == rest[i - 1] && r[i] in others
    {
    }
    forall id | id in others + {m}
      ensures id in r
    {
      if id != m {
        var k :| 0 <= k < |rest| && rest[k] == id;
        assert r[k + 1] == id;
      }
    }
  }

  /** The ids in ascending order, each once. */
  function SortedIds(ids: set<Int32>): (r: seq<Int32>)
    ensures |r| == |ids|
    ensures Lists(r, ids)
    ensures StrictlyAscending(r)
    decreases |ids|
  {
    if ids == {} then []
    else
      var m := MinOf(ids);
      var others := ids - {m};
      assert |others| == |ids| - 1;
      var rest := SortedIds(others);
      ListsCons(m, others, rest);
      assert others + {m} == ids;
      [m] + rest
  }

  /** The values of a map, in ascending order of their keys. */
  function ValuesInOrder<T>(m: map<Int32, T>): (r: seq<T>)
    ensures |r| == |m|
    ensures forall i :: 0 <= i < |r| ==> SortedIds(m.Keys)[i] in m && r[i] == m[SortedIds(m.Keys)[i]]
  {
    var ids := SortedIds(m.Keys);
    assert |m.Keys| == |m|;
    assert forall i :: 0 <= i < |ids| ==> ids[i] in m;
    seq(|ids|, i requires 0 <= i < |ids| => m[ids[i]])
  }
}
