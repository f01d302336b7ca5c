/** The `sort({ field: -1 })` and `limit(n)` steps of the listing queries:
    newest (largest key) first. */
module Ordering {

  ghost predicate SortedDesc<T>(s: seq<T>, key: T -> int)
  {
    forall i, j :: 0 <= i < j < |s| ==> key(s[i]) >= key(s[j])
  }

  /** Places `x` into an already sorted sequence. */
  function InsertDesc<T>(x: T, s: seq<T>, key: T -> int): (r: seq<T>)
    requires SortedDesc(s, key)
    ensures SortedDesc(r, key)
    ensures multiset(r) == multiset(s) + multiset{x}
    decreases |s|
  {
    if |s| == 0 then [x]
    else if key(x) >= key(s[0]) then [x] + s
    else
      var rest := InsertDesc(x, s[1..], key);
      assert s == [s[0]] + s[1..];
      forall j | 0 <= j < |rest| ensures key(rest[j]) <= key(s[0]) {
        assert rest[j] in multiset(s[1..]) + multiset{x};
        if rest[j] != x {
          assert rest[j] in s[1..];
        }
      }
      ConsSorted(s[0], rest, key);
      [s[0]] + rest
  }

  /** A head no smaller than every element keeps a sorted tail sorted. */
  lemma ConsSorted<T>(h: T, s: seq<T>, key: T -> int)
    requires SortedDesc(s, key)
    requires forall j :: 0 <= j < |s| ==> key(s[j]) <= key(h)
    ensures SortedDesc([h] + s, key)
  {
    var r := [h] + s;
    forall i, j | 0 <= i < j < |r| ensures key(r[i]) >= key(r[j]) {
      assert r[j] == s[j - 1];
      if i > 0 {
        assert r[i] == s[i - 1];
      }
    }
  }

  /** The documents ordered by non-increasing key. Documents with equal keys
      may come in any order in the source; this definition fixes one. */
  function SortDesc<T>(s: seq<T>, key: T -> int): (r: seq<T>)
    ensures SortedDesc(r, key)
    ensures multiset(r) == multiset(s)
    ensures |r| == |s|
    decreases |s|
  {
    if |s| == 0 then []
    else
      assert s == [s[0]] + s[1..];
      InsertDesc(s[0], SortDesc(s[1..], key), key)
  }

  /** `limit(n)`: the first `n` documents, or all of them when there are fewer. */
  function Take<T>(s: seq<T>, n: nat): (r: seq<T>)
    ensures |r| == if |s| < n then |s| else n
    ensures forall i :: 0 <= i < |r| ==> r[i] == s[i]
  {
    if |s| < n then s else s[..n]
  }

  /** Every document that a sorted prefix leaves out has a key no larger than
      any document the prefix keeps. */
  lemma PrefixDominates<T>(s: seq<T>, key: T -> int, n: nat)
    requires SortedDesc(s, key)
    ensures multiset(Take(s, n)) <= multiset(s)
    ensures forall m, x :: m in multiset(s) - multiset(Take(s, n)) && x in Take(s, n) ==> key(m) <= key(x)
  {
    var k := if |s| < n then |s| else n;
    assert s == s[..k] + s[k..];
    assert Take(s, n) == s[..k];
    assert multiset(s) - multiset(Take(s, n)) == multiset(s[k..]);
    forall m, x | m in multiset(s[k..]) && x in s[..k] ensures key(m) <= key(x) {
      var a :| 0 <= a < k && s[a] == x;
      var b :| 0 <= b < |s| - k && s[k..][b] == m;
      assert s[k + b] == m;
    }
  }
}
