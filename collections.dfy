/** Sequences, sets and Python's stable `sorted`, as the MiniBit model uses them.
    A Python dict is modelled as a sequence of (key, value) pairs in insertion order
    with distinct keys. */
module Collections {

  predicate Distinct<T(==)>(s: seq<T>)
  {
    forall i, j :: 0 <= i < j < |s| ==> s[i] != s[j]
  }

  predicate StrictlyIncreasing(s: seq<int>)
  {
    forall i, j :: 0 <= i < j < |s| ==> s[i] < s[j]
  }

  function Elements<T(==)>(s: seq<T>): set<T>
  {
    set x | x in s
  }

  lemma DistinctCons<T>(x: T, s: seq<T>)
    ensures Distinct([x] + s) <==> x !in s && Distinct(s)
  {
    var t := [x] + s;
    assert t[1..] == s;
    if x in s {
      var k :| 0 <= k < |s| && s[k] == x;
      assert t[k + 1] == t[0];
    }
  }

  lemma DistinctSnoc<T>(s: seq<T>, x: T)
    requires Distinct(s) && x !in s
    ensures Distinct(s + [x])
  {
    var t := s + [x];
    forall i, j | 0 <= i < j < |t| ensures t[i] != t[j] {
      if j == |s| {
        assert t[i] == s[i];
      }
    }
  }

  /** A distinct sequence has as many elements as its set. */
  lemma {:induction false} DistinctSize<T>(s: seq<T>)
    requires Distinct(s)
    ensures |Elements(s)| == |s|
  {
    if s != [] {
      DistinctSize(s[1..]);
      assert Elements(s) == {s[0]} + Elements(s[1..]);
      assert s[0] !in Elements(s[1..]);
    }
  }

  /** Each element of a distinct sequence occurs exactly once in it. */
  lemma {:induction false} DistinctMultiplicity<T>(s: seq<T>, x: T)
    requires Distinct(s)
    ensures multiset(s)[x] == if x in s then 1 else 0
  {
    if s != [] {
      DistinctMultiplicity(s[1..], x);
      assert s == [s[0]] + s[1..];
      assert s[0] !in s[1..];
    }
  }

  /** A sequence in which nothing occurs twice is distinct. */
  lemma {:induction false} MultiplicityDistinct<T>(s: seq<T>)
    requires forall x :: multiset(s)[x] <= 1
    ensures Distinct(s)
  {
    if s != [] {
      assert s == [s[0]] + s[1..];
      assert multiset(s) == multiset{s[0]} + multiset(s[1..]);
      forall x ensures multiset(s[1..])[x] <= 1 {
        assert multiset(s)[x] >= multiset(s[1..])[x];
      }
      MultiplicityDistinct(s[1..]);
      assert multiset(s)[s[0]] == 1 + multiset(s[1..])[s[0]];
      DistinctCons(s[0], s[1..]);
    }
  }

  /** Where an element of a sequence is found in a permutation of it. */
  lemma Position<T>(s: seq<T>, t: seq<T>, k: int) returns (m: int)
    requires multiset(s) == multiset(t) && 0 <= k < |s|
    ensures 0 <= m < |t| && t[m] == s[k]
  {
    assert s[k] in multiset(t);
    assert s[k] in t;
    m :| 0 <= m < |t| && t[m] == s[k];
  }

  // ---------------------------------------------------------------------------
  // sorted() of a set of integers
  // ---------------------------------------------------------------------------

  ghost predicate IsLeast(m: int, s: set<int>)
  {
    m in s && forall y :: y in s ==> m <= y
  }

  /** Some element of a non-empty set. */
  lemma Pick<T>(s: set<T>) returns (x: T)
    requires s != {}
    ensures x in s
  {
    x :| x in s;
  }

  lemma HasLeast(s: set<int>)
    requires s != {}
    ensures exists m :: IsLeast(m, s)
    decreases |s|
  {
    var x := Pick(s);
    if s != {x} {
      var t := s - {x};
      HasLeast(t);
      var m :| IsLeast(m, t);
      var r := if x < m then x else m;
      forall y | y in s ensures r <= y {
        if y != x { assert y in t; }
      }
      assert IsLeast(r, s);
    } else {
      assert IsLeast(x, s);
    }
  }

  function Least(s: set<int>): (m: int)
    requires s != {}
    ensures m in s && forall y :: y in s ==> m <= y
  {
    HasLeast(s);
    var m :| m in s && forall y :: y in s ==> m <= y; m
  }

  /** `sorted(s)` for a set of integers: its elements, each once, in ascending order. */
  function Ascending(s: set<int>): (r: seq<int>)
    ensures StrictlyIncreasing(r)
    ensures forall x :: x in r <==> x in s
    ensures |r| == |s|
    decreases |s|
  {
    if s == {} then []
    else
      var m := Least(s);
      var rest := Ascending(s - {m});
      assert forall x :: x in rest ==> m < x;
      [m] + rest
  }

  lemma StrictlyIncreasingDistinct(s: seq<int>)
    requires StrictlyIncreasing(s)
    ensures Distinct(s)
  {
  }

  // ---------------------------------------------------------------------------
  // sorted(s, key=...) and list.sort(key=...): a stable sort
  // ---------------------------------------------------------------------------

  predicate SortedBy<T>(s: seq<T>, key: T -> int)
  {
    forall i, j :: 0 <= i < j < |s| ==> key(s[i]) <= key(s[j])
  }

  /** Inserts `x` after every element whose key is not greater than its own. */
  function Insert<T>(x: T, s: seq<T>, key: T -> int): (r: seq<T>)
    ensures multiset(r) == multiset(s) + multiset{x}
    ensures |r| == |s| + 1
  {
    if s == [] || key(x) < key(s[0]) then [x] + s
    else
      var r := [s[0]] + Insert(x, s[1..], key);
      assert s == [s[0]] + s[1..];
      r
  }

  lemma {:induction false} InsertSorted<T>(x: T, s: seq<T>, key: T -> int)
    requires SortedBy(s, key)
    ensures SortedBy(Insert(x, s, key), key)
  {
    if s != [] && key(x) >= key(s[0]) {
      var tail := Insert(x, s[1..], key);
      InsertSorted(x, s[1..], key);
      var r := [s[0]] + tail;
      assert r == Insert(x, s, key);
      forall j | 0 <= j < |tail| ensures key(s[0]) <= key(tail[j]) {
        assert tail[j] in multiset(tail);
        assert tail[j] in multiset(s[1..]) || tail[j] == x;
        if tail[j] != x {
          var k :| 0 <= k < |s[1..]| && s[1..][k] == tail[j];
          assert s[k + 1] == tail[j];
        }
      }
      forall i, j | 0 <= i < j < |r| ensures key(r[i]) <= key(r[j]) {
        assert r[j] == tail[j - 1];
        if i > 0 {
          assert r[i] == tail[i - 1];
        }
      }
    }
  }

  /** Python's `sorted(s, key=key)`: an insertion sort, stable like Python's. The
      result is a permutation of `s`, in non-decreasing order of key. */
  function SortBy<T>(s: seq<T>, key: T -> int): (r: seq<T>)
    ensures multiset(r) == multiset(s)
    ensures |r| == |s|
    ensures SortedBy(r, key)
  {
    if s == [] then []
    else
      var sortedInit := SortBy(s[..|s| - 1], key);
      InsertSorted(s[|s| - 1], sortedInit, key);
      assert s == s[..|s| - 1] + [s[|s| - 1]];
      Insert(s[|s| - 1], sortedInit, key)
  }

  /** The elements of `s` whose key is `k`, in the order they have in `s`. */
  function WithKey<T>(s: seq<T>, key: T -> int, k: int): seq<T>
  {
    if s == [] then []
    else (if key(s[0]) == k then [s[0]] else []) + WithKey(s[1..], key, k)
  }

  lemma {:induction false} WithKeyAppend<T>(s: seq<T>, t: seq<T>, key: T -> int, k: int)
    ensures WithKey(s + t, key, k) == WithKey(s, key, k) + WithKey(t, key, k)
  {
    if s == [] {
      assert s + t == t;
    } else {
      var head := if key(s[0]) == k then [s[0]] else [];
      assert (s + t)[0] == s[0];
      assert (s + t)[1..] == s[1..] + t;
      assert WithKey(s + t, key, k) == head + WithKey(s[1..] + t, key, k);
      WithKeyAppend(s[1..], t, key, k);
      assert head + (WithKey(s[1..], key, k) + WithKey(t, key, k))
          == (head + WithKey(s[1..], key, k)) + WithKey(t, key, k);
    }
  }

  lemma {:induction false} WithKeyAbove<T>(s: seq<T>, key: T -> int, k: int)
    requires forall i :: 0 <= i < |s| ==> k < key(s[i])
    ensures WithKey(s, key, k) == []
  {
    if s != [] {
      WithKeyAbove(s[1..], key, k);
    }
  }

  lemma WithKeySingle<T>(y: T, key: T -> int, k: int)
    ensures WithKey([y], key, k) == if key(y) == k then [y] else []
  {
    assert [y][1..] == [];
  }

  /** The case where `x` goes in front: no element of `s` has its key. */
  lemma InsertAheadWithKey<T>(x: T, s: seq<T>, key: T -> int, k: int)
    requires SortedBy(s, key) && (s == [] || key(x) < key(s[0]))
    ensures WithKey([x] + s, key, k) == WithKey(s, key, k) + (if key(x) == k then [x] else [])
  {
    WithKeyAppend([x], s, key, k);
    WithKeySingle(x, key, k);
    if key(x) == k {
      WithKeyAbove(s, key, k);
    }
  }

  /** The case where `x` goes after the head of `s`. */
  lemma InsertBehindWithKey<T>(x: T, s: seq<T>, tail: seq<T>, key: T -> int, k: int)
    requires s != []
    requires WithKey(tail, key, k) == WithKey(s[1..], key, k) + (if key(x) == k then [x] else [])
    ensures WithKey([s[0]] + tail, key, k) == WithKey(s, key, k) + (if key(x) == k then [x] else [])
  {
    WithKeyAppend([s[0]], tail, key, k);
    assert s == [s[0]] + s[1..];
    WithKeyAppend([s[0]], s[1..], key, k);
  }

  /** Inserting into a sorted sequence puts `x` after every element with its key. */
  lemma {:induction false} InsertWithKey<T>(x: T, s: seq<T>, key: T -> int, k: int)
    requires SortedBy(s, key)
    ensures WithKey(Insert(x, s, key), key, k) == WithKey(s, key, k) + (if key(x) == k then [x] else [])
  {
    if s == [] || key(x) < key(s[0]) {
      assert Insert(x, s, key) == [x] + s;
      InsertAheadWithKey(x, s, key, k);
    } else {
      var tail := Insert(x, s[1..], key);
      assert Insert(x, s, key) == [s[0]] + tail;
      assert SortedBy(s[1..], key) by {
        forall i, j | 0 <= i < j < |s[1..]| ensures key(s[1..][i]) <= key(s[1..][j]) {
          assert s[1..][i] == s[i + 1] && s[1..][j] == s[j + 1];
        }
      }
      InsertWithKey(x, s[1..], key, k);
      InsertBehindWithKey(x, s, tail, key, k);
    }
  }

  /** `SortBy` is stable: for every key, the elements with that key come out in
      the order they went in. */
  lemma {:induction false} SortByStable<T>(s: seq<T>, key: T -> int, k: int)
    ensures WithKey(SortBy(s, key), key, k) == WithKey(s, key, k)
  {
    if s != [] {
      var init, last := s[..|s| - 1], s[|s| - 1];
      var sortedInit := SortBy(init, key);
      assert SortBy(s, key) == Insert(last, sortedInit, key);
      SortByStable(init, key, k);
      InsertWithKey(last, sortedInit, key, k);
      assert s == init + [last];
      WithKeyAppend(init, [last], key, k);
      WithKeySingle(last, key, k);
    }
  }

  // ---------------------------------------------------------------------------
  // Sequences of pairs (Python dicts and lists of tuples)
  // ---------------------------------------------------------------------------

  /** The first components, e.g. `[peer for peer, _ in pairs]` or `dict.keys()`. */
  function Firsts<A, B>(s: seq<(A, B)>): (r: seq<A>)
    ensures |r| == |s|
    ensures forall i :: 0 <= i < |s| ==> r[i] == s[i].0
  {
    if s == [] then [] else [s[0].0] + Firsts(s[1..])
  }

  lemma FirstsPrefix<A, B>(s: seq<(A, B)>, n: nat)
    requires n <= |s|
    ensures Firsts(s[..n]) == Firsts(s)[..n]
  {
  }

  lemma FirstsAppend<A, B>(s: seq<(A, B)>, t: seq<(A, B)>)
    ensures Firsts(s + t) == Firsts(s) + Firsts(t)
  {
    var f, g := Firsts(s + t), Firsts(s) + Firsts(t);
    forall i | 0 <= i < |f| ensures f[i] == g[i] {
      if i < |s| {
        assert g[i] == Firsts(s)[i];
      } else {
        assert g[i] == Firsts(t)[i - |s|];
      }
    }
  }

  /** Projecting to first components commutes with inserting, when the key of a
      pair is the key of its first component. */
  lemma {:induction false} InsertFirsts<A, B>(x: (A, B), s: seq<(A, B)>, pairKey: ((A, B)) -> int, key: A -> int)
    requires key(x.0) == pairKey(x)
    requires forall e :: e in s ==> key(e.0) == pairKey(e)
    ensures Firsts(Insert(x, s, pairKey)) == Insert(x.0, Firsts(s), key)
  {
    if s == [] || pairKey(x) < pairKey(s[0]) {
      assert Firsts([x] + s) == [x.0] + Firsts(s);
    } else {
      assert s[0] in s;
      InsertFirsts(x, s[1..], pairKey, key);
      assert Firsts(s)[1..] == Firsts(s[1..]);
      assert Firsts([s[0]] + Insert(x, s[1..], pairKey)) == [s[0].0] + Firsts(Insert(x, s[1..], pairKey));
    }
  }

  /** Sorting pairs and then projecting equals projecting and then sorting by the
      key that each first component carries (both sorts are stable). */
  lemma {:induction false} SortByFirsts<A, B>(s: seq<(A, B)>, pairKey: ((A, B)) -> int, key: A -> int)
    requires forall e :: e in s ==> key(e.0) == pairKey(e)
    ensures Firsts(SortBy(s, pairKey)) == SortBy(Firsts(s), key)
  {
    if s != [] {
      var init := s[..|s| - 1];
      var last := s[|s| - 1];
      assert last in s;
      assert forall e :: e in init ==> e in s;
      SortByFirsts(init, pairKey, key);
      var sorted := SortBy(init, pairKey);
      SortedKeys(init, sorted, pairKey, key);
      InsertFirsts(last, sorted, pairKey, key);
      FirstsInit(s);
    }
  }

  lemma SortedKeys<A, B>(init: seq<(A, B)>, sorted: seq<(A, B)>, pairKey: ((A, B)) -> int, key: A -> int)
    requires multiset(sorted) == multiset(init)
    requires forall e :: e in init ==> key(e.0) == pairKey(e)
    ensures forall e :: e in sorted ==> key(e.0) == pairKey(e)
  {
    forall e | e in sorted ensures key(e.0) == pairKey(e) {
      assert e in multiset(sorted);
      assert e in init;
    }
  }

  lemma FirstsInit<A, B>(s: seq<(A, B)>)
    requires s != []
    ensures Firsts(s) == Firsts(s[..|s| - 1]) + [s[|s| - 1].0]
  {
    var init := s[..|s| - 1];
    var f, g := Firsts(s), Firsts(init) + [s[|s| - 1].0];
    forall i | 0 <= i < |f| ensures f[i] == g[i] {
      if i < |init| {
        assert g[i] == Firsts(init)[i] == init[i].0;
      }
    }
  }

  /** `[x for x in s if x not in excluded]`. */
  function Without<T(==,!new)>(s: seq<T>, excluded: seq<T>): (r: seq<T>)
    ensures forall x :: x in r <==> x in s && x !in excluded
  {
    if s == [] then []
    else if s[0] in excluded then Without(s[1..], excluded)
    else [s[0]] + Without(s[1..], excluded)
  }
}
