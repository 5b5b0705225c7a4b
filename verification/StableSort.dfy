/** Sorting by an integer key; equal keys keep their order. */
module StableSort {

  ghost predicate SortedBy<T>(s: seq<T>, key: T -> int) {
    forall i, j :: 0 <= i < j < |s| ==> key(s[i]) <= key(s[j])
  }

  function Insert<T>(s: seq<T>, key: T -> int, x: T): seq<T> {
    if s == [] || key(s[|s| - 1]) <= key(x) then s + [x] else Insert(s[..|s| - 1], key, x) + [s[|s| - 1]]
  }

  lemma {:induction false} InsertKeepsElements<T>(s: seq<T>, key: T -> int, x: T)
    ensures multiset(Insert(s, key, x)) == multiset(s) + multiset{x}
    ensures forall y :: y in Insert(s, key, x) ==> y in s || y == x
    ensures |Insert(s, key, x)| == |s| + 1
  {
    if s != [] && key(s[|s| - 1]) > key(x) {
      InsertKeepsElements(s[..|s| - 1], key, x);
      assert s == s[..|s| - 1] + [s[|s| - 1]];
    }
  }

  lemma {:induction false} InsertKeepsOrder<T>(s: seq<T>, key: T -> int, x: T)
    requires SortedBy(s, key)
    ensures SortedBy(Insert(s, key, x), key)
  {
    if s != [] && key(s[|s| - 1]) > key(x) {
      var front, last := s[..|s| - 1], s[|s| - 1];
      InsertKeepsOrder(front, key, x);
      InsertKeepsElements(front, key, x);
      forall i | 0 <= i < |Insert(front, key, x)| ensures key(Insert(front, key, x)[i]) <= key(last) {
        assert Insert(front, key, x)[i] in Insert(front, key, x);
      }
    }
  }

  method Sort<T>(s: seq<T>, key: T -> int) returns (r: seq<T>)
    ensures SortedBy(r, key) && multiset(r) == multiset(s) && |r| == |s|
  {
    r := [];
    for n := 0 to |s|
      invariant SortedBy(r, key) && multiset(r) == multiset(s[..n]) && |r| == n
    {
      InsertKeepsOrder(r, key, s[n]);
      InsertKeepsElements(r, key, s[n]);
      assert s[..n + 1] == s[..n] + [s[n]];
      r := Insert(r, key, s[n]);
    }
    assert s[..|s|] == s;
  }
}
