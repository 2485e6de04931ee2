/** Stable sorting by an integer key, as the library sort does it. */
module Sorting {
  ghost predicate SortedBy<T>(s: seq<T>, key: T -> int) {
    forall i, j | 0 <= i < j < |s| :: key(s[i]) <= key(s[j])
  }

  function InsertBy<T>(x: T, s: seq<T>, key: T -> int): (r: seq<T>)
    ensures multiset(r) == multiset(s) + multiset{x}
    ensures |r| == |s| + 1
  {
    if s == [] then [x]
    else if key(x) <= key(s[0]) then [x] + s
    else
      assert s == [s[0]] + s[1..];
      [s[0]] + InsertBy(x, s[1..], key)
  }

  function SortBy<T>(s: seq<T>, key: T -> int): (r: seq<T>)
    ensures multiset(r) == multiset(s)
    ensures |r| == |s|
  {
    if s == [] then []
    else
      assert s == [s[0]] + s[1..];
      InsertBy(s[0], SortBy(s[1..], key), key)
  }

  lemma {:induction false} InsertedMembers<T>(x: T, s: seq<T>, key: T -> int, j: nat)
    requires j < |s| + 1
    ensures InsertBy(x, s, key)[j] == x || InsertBy(x, s, key)[j] in s
  {
    var r := InsertBy(x, s, key);
    assert r[j] in multiset(r);
  }

  lemma {:induction false} InsertKeepsSorted<T>(x: T, s: seq<T>, key: T -> int)
    requires SortedBy(s, key)
    ensures SortedBy(InsertBy(x, s, key), key)
  {
    if s != [] && key(x) > key(s[0]) {
      var rest := InsertBy(x, s[1..], key);
      InsertKeepsSorted(x, s[1..], key);
      forall j | 0 <= j < |rest| ensures key(s[0]) <= key(rest[j]) {
        InsertedMembers(x, s[1..], key, j);
        if rest[j] != x {
          var i :| 0 <= i < |s[1..]| && s[1..][i] == rest[j];
          assert s[i + 1] == rest[j];
        }
      }
    }
  }

  lemma {:induction false} SortSorts<T>(s: seq<T>, key: T -> int)
    ensures SortedBy(SortBy(s, key), key)
  {
    if s != [] {
      SortSorts(s[1..], key);
      InsertKeepsSorted(s[0], SortBy(s[1..], key), key);
    }
  }

  lemma {:induction false} SortKeepsMembers<T>(s: seq<T>, key: T -> int)
    ensures forall x :: x in s <==> x in SortBy(s, key)
  {
    forall x ensures x in s <==> x in SortBy(s, key) {
      assert x in s <==> x in multiset(s);
      assert x in SortBy(s, key) <==> x in multiset(SortBy(s, key));
    }
  }

  ghost predicate Unrepeated<T(!new)>(s: seq<T>) {
    forall i, j | 0 <= i < j < |s| :: s[i] != s[j]
  }

  lemma {:induction false} UnrepeatedIff<T(!new)>(s: seq<T>)
    ensures Unrepeated(s) <==> forall x :: multiset(s)[x] <= 1
  {
    if s != [] {
      var front, last := s[..|s| - 1], s[|s| - 1];
      UnrepeatedIff(front);
      assert s == front + [last];
      if Unrepeated(s) {
        assert last !in front;
      } else if Unrepeated(front) {
        var i, j :| 0 <= i < j < |s| && s[i] == s[j];
        assert front[i] == last;
        assert multiset(s)[last] >= 2;
      } else {
        var x :| multiset(front)[x] > 1;
        assert multiset(s)[x] > 1;
      }
    }
  }

  lemma {:induction false} SortKeepsUnrepeated<T(!new)>(s: seq<T>, key: T -> int)
    requires Unrepeated(s)
    ensures Unrepeated(SortBy(s, key))
  {
    UnrepeatedIff(s);
    UnrepeatedIff(SortBy(s, key));
  }

  /** Nothing of `s` outside `front` comes before anything of `front`. */
  ghost predicate LeastFirst<T(!new)>(front: seq<T>, s: seq<T>, key: T -> int) {
    forall x, y | x in front && y in s && y !in front :: key(x) <= key(y)
  }

  lemma SortedPrefixIsLeast<T(!new)>(s: seq<T>, key: T -> int, n: nat)
    requires SortedBy(s, key) && n <= |s|
    ensures LeastFirst(s[..n], s, key)
  {
    forall k | 0 <= k < n ensures s[k] in s[..n] { assert s[..n][k] == s[k]; }
    forall x, y | x in s[..n] && y in s && y !in s[..n] ensures key(x) <= key(y) {
      var i :| 0 <= i < n && s[i] == x;
      var j :| 0 <= j < |s| && s[j] == y;
    }
  }
}
