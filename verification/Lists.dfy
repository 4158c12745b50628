/** Lists without repetition. */
module Lists {

  /** Each element once, in the order they first came. */
  function Distinct<T(==)>(s: seq<T>): (d: seq<T>)
    ensures |d| <= |s|
  {
    if s == [] then []
    else
      var before, last := Distinct(s[..|s| - 1]), s[|s| - 1];
      if last in before then before else before + [last]
  }

  predicate NoneTwice<T(==)>(s: seq<T>) {
    forall i, j :: 0 <= i < j < |s| ==> s[i] != s[j]
  }

  lemma DistinctMore<T>(s: seq<T>, last: T)
    ensures var d := Distinct(s);
            Distinct(s + [last]) == if last in d then d else d + [last]
  {
    assert (s + [last])[..|s|] == s;
  }

  /** Nothing is left out and nothing is there twice. */
  lemma {:induction false} DistinctMeans<T>(s: seq<T>)
    ensures NoneTwice(Distinct(s)) && forall x :: x in Distinct(s) <==> x in s
  {
    if s != [] {
      var before, last := s[..|s| - 1], s[|s| - 1];
      DistinctMeans(before);
      assert s == before + [last];
    }
  }

  /** What came first is listed first. */
  lemma {:induction false} DistinctFirst<T>(s: seq<T>, more: seq<T>)
    ensures Distinct(s) <= Distinct(s + more)
  {
    if more == [] {
      assert s + more == s;
    } else {
      var last := |more| - 1;
      DistinctFirst(s, more[..last]);
      assert s + more == s + more[..last] + [more[last]];
      DistinctMore(s + more[..last], more[last]);
    }
  }
}
