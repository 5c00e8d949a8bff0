/** How the store answers a `find(filter).sort(key)` query: the matching
    documents are scanned in id order (ids are handed out in creation order,
    so this is the collection's natural order) and then sorted by a key. */
module Listing {

  /** Every id in `m` is below `n`: `n` is the next id to hand out. */
  ghost predicate IdsBelow<V>(m: map<nat, V>, n: nat) {
    forall k :: k in m ==> k < n
  }

  /** The entries of `m` with id below `n` that `keep` accepts, in id order. */
  function Scan<V>(m: map<nat, V>, n: nat, keep: V -> bool): (r: seq<(nat, V)>)
    ensures forall i :: 0 <= i < |r| ==> r[i].0 < n && r[i].0 in m && r[i].1 == m[r[i].0] && keep(r[i].1)
    ensures forall k :: 0 <= k < n && k in m && keep(m[k]) ==> (k, m[k]) in r
    ensures forall i, j :: 0 <= i < j < |r| ==> r[i].0 < r[j].0
  {
    if n == 0 then []
    else
      var prev := Scan(m, n - 1, keep);
      if n - 1 in m && keep(m[n - 1]) then prev + [(n - 1, m[n - 1])] else prev
  }

  /** The ids of `m` below `n` that `keep` accepts. */
  ghost function Matching<V>(m: map<nat, V>, n: nat, keep: V -> bool): set<nat> {
    set k | k in m && k < n && keep(m[k])
  }

  /** The number of entries of `m` with id below `n` that `keep` accepts. */
  function Count<V>(m: map<nat, V>, n: nat, keep: V -> bool): nat {
    if n == 0 then 0
    else Count(m, n - 1, keep) + if n - 1 in m && keep(m[n - 1]) then 1 else 0
  }

  /** The count is the size of the set of matching ids. */
  lemma {:induction false} CountIsMatching<V>(m: map<nat, V>, n: nat, keep: V -> bool)
    ensures Count(m, n, keep) == |Matching(m, n, keep)|
  {
    if n == 0 {
      assert Matching(m, n, keep) == {};
    } else {
      CountIsMatching(m, n - 1, keep);
      if n - 1 in m && keep(m[n - 1]) {
        assert Matching(m, n, keep) == Matching(m, n - 1, keep) + {n - 1};
      } else {
        assert Matching(m, n, keep) == Matching(m, n - 1, keep);
      }
    }
  }

  /** Changing one entry from rejected to accepted adds exactly one to the count. */
  lemma {:induction false} CountUpdateGains<V>(m: map<nat, V>, n: nat, keep: V -> bool, k: nat, v: V)
    requires k in m && k < n && !keep(m[k]) && keep(v)
    ensures Count(m[k := v], n, keep) == Count(m, n, keep) + 1
  {
    if k < n - 1 {
      CountUpdateGains(m, n - 1, keep, k, v);
    } else {
      CountAgreeBelow(m, m[k := v], n - 1, keep);
    }
  }

  /** Changing one entry without changing whether `keep` accepts it leaves the count alone. */
  lemma {:induction false} CountUpdateKeeps<V>(m: map<nat, V>, n: nat, keep: V -> bool, k: nat, v: V)
    requires k in m ==> keep(m[k]) == keep(v)
    requires k !in m ==> !keep(v)
    ensures Count(m[k := v], n, keep) == Count(m, n, keep)
  {
    if n > 0 {
      CountUpdateKeeps(m, n - 1, keep, k, v);
    }
  }

  /** Two maps that agree below `n` have the same count below `n`. */
  lemma {:induction false} CountAgreeBelow<V>(m: map<nat, V>, m': map<nat, V>, n: nat, keep: V -> bool)
    requires forall k :: k < n ==> (k in m <==> k in m')
    requires forall k :: k < n && k in m ==> m[k] == m'[k]
    ensures Count(m, n, keep) == Count(m', n, keep)
  {
    if n > 0 {
      CountAgreeBelow(m, m', n - 1, keep);
    }
  }

  /** `s` is in ascending order of `key`. */
  ghost predicate SortedBy<T>(s: seq<T>, key: T -> int) {
    forall i, j :: 0 <= i < j < |s| ==> key(s[i]) <= key(s[j])
  }

  /** No element occurs twice in `s`. */
  ghost predicate Distinct<T>(s: seq<T>) {
    forall i, j :: 0 <= i < j < |s| ==> s[i] != s[j]
  }

  /** Inserts `x` into `s` before the first element whose key is not smaller. */
  function Insert<T>(x: T, s: seq<T>, key: T -> int): (r: seq<T>)
    ensures multiset(r) == multiset(s) + multiset{x}
  {
    if s == [] || key(x) <= key(s[0]) then [x] + s
    else
      assert s == [s[0]] + s[1..];
      [s[0]] + Insert(x, s[1..], key)
  }

  /** Inserting into a sorted sequence keeps it sorted. */
  lemma {:induction false} InsertSorted<T>(x: T, s: seq<T>, key: T -> int)
    requires SortedBy(s, key)
    ensures SortedBy(Insert(x, s, key), key)
  {
    if s != [] && key(x) > key(s[0]) {
      var t := Insert(x, s[1..], key);
      InsertSorted(x, s[1..], key);
      forall j | 0 <= j < |t| ensures key(s[0]) <= key(t[j]) {
        assert t[j] in multiset(t);
        if t[j] != x {
          assert t[j] in multiset(s[1..]);
          var i :| 0 <= i < |s[1..]| && s[1..][i] == t[j];
          assert s[i + 1] == t[j];
        }
      }
    }
  }

  /** Inserting a new element into a repetition-free sequence keeps it so. */
  lemma {:induction false} InsertDistinct<T>(x: T, s: seq<T>, key: T -> int)
    requires Distinct(s) && x !in s
    ensures Distinct(Insert(x, s, key))
  {
    if s != [] && key(x) > key(s[0]) {
      var t := Insert(x, s[1..], key);
      assert s == [s[0]] + s[1..];
      InsertDistinct(x, s[1..], key);
      assert s[0] !in s[1..];
      assert s[0] !in multiset(t);
    }
  }

  /** Insertion sort by `key`. */
  function SortBy<T>(s: seq<T>, key: T -> int): (r: seq<T>)
    ensures multiset(r) == multiset(s)
    ensures SortedBy(r, key)
  {
    if s == [] then []
    else
      assert s == [s[0]] + s[1..];
      var t := SortBy(s[1..], key);
      InsertSorted(s[0], t, key);
      Insert(s[0], t, key)
  }

  /** Sorting a repetition-free sequence gives a repetition-free result. */
  lemma {:induction false} SortByDistinct<T>(s: seq<T>, key: T -> int)
    requires Distinct(s)
    ensures Distinct(SortBy(s, key))
  {
    if s != [] {
      assert s == [s[0]] + s[1..];
      var t := SortBy(s[1..], key);
      SortByDistinct(s[1..], key);
      assert s[0] !in multiset(s[1..]);
      InsertDistinct(s[0], t, key);
    }
  }

  /** `find(keep).sort(key)`: the matching entries, each once, in key order. */
  function SortedFind<V(!new)>(m: map<nat, V>, n: nat, keep: V -> bool, key: ((nat, V)) -> int): (r: seq<(nat, V)>)
    requires IdsBelow(m, n)
    ensures forall p :: p in r <==> p.0 in m && p.1 == m[p.0] && keep(p.1)
    ensures SortedBy(r, key)
    ensures forall i, j :: 0 <= i < j < |r| ==> r[i].0 != r[j].0
  {
    var s := Scan(m, n, keep);
    SortByDistinct(s, key);
    var r := SortBy(s, key);
    assert forall p :: p in r <==> p in multiset(s);
    r
  }
}
