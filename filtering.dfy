/** Keeping the rows of a query result that satisfy a predicate, in their order:
    every `Query.filter(...)` of the service is an instance of this. */
module Filtering {
  import opened TriviaModel

  function Filter(s: seq<Question>, p: Question -> bool): (r: seq<Question>)
    ensures |r| <= |s|
    ensures forall x :: x in r <==> x in s && p(x)
  {
    if s == [] then []
    else (if p(s[0]) then [s[0]] else []) + Filter(s[1..], p)
  }

  /** Every element kept: the filter is the identity. */
  lemma {:induction false} FilterKeepsAll(s: seq<Question>, p: Question -> bool)
    requires forall x :: x in s ==> p(x)
    ensures Filter(s, p) == s
  {
    if s != [] {
      FilterKeepsAll(s[1..], p);
    }
  }

  /** No element kept: the filter is empty. */
  lemma {:induction false} FilterKeepsNone(s: seq<Question>, p: Question -> bool)
    requires forall x :: x in s ==> !p(x)
    ensures Filter(s, p) == []
  {
    if s != [] {
      FilterKeepsNone(s[1..], p);
    }
  }

  /** Filtering a list sorted by id leaves it sorted by id: the relative order of the rows is kept. */
  lemma {:induction false} FilterSorted(qs: seq<Question>, p: Question -> bool)
    ensures SortedById(qs) ==> SortedById(Filter(qs, p))
  {
    if qs != [] && SortedById(qs) {
      FilterSorted(qs[1..], p);
      var rest := Filter(qs[1..], p);
      forall x | x in rest ensures qs[0].id < x.id {
        var k :| 0 <= k < |qs[1..]| && qs[1..][k] == x;
        assert qs[k + 1] == x;
      }
    }
  }

  /** In a list of distinct ids, dropping the one row with a given id shortens the list by exactly one. */
  lemma {:induction false} FilterDropsOne(qs: seq<Question>, p: Question -> bool, id: int)
    requires forall q :: p(q) <==> q.id != id
    ensures SortedById(qs) && id in Ids(qs) ==> |Filter(qs, p)| == |qs| - 1
  {
    if SortedById(qs) && id in Ids(qs) {
      if qs[0].id == id {
        FilterKeepsAll(qs[1..], p);
      } else {
        var q :| q in qs && q.id == id;
        assert q in qs[1..];
        FilterDropsOne(qs[1..], p, id);
      }
    }
  }
}
