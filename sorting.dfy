/** Sorting records by a numeric key, standing for the database's
    `sort({ createdAt: 1 })`. The database leaves the order of records with
    equal keys unspecified; this model fixes one choice, a stable sort, so
    that records with equal keys keep their stored order. */
module Sorting {

  /** Keys never decrease along `s`. */
  predicate SortedBy<T>(s: seq<T>, key: T -> int) {
    forall i, j :: 0 <= i < j < |s| ==> key(s[i]) <= key(s[j])
  }

  /** Keys never increase along `s`. */
  predicate DescendingBy<T>(s: seq<T>, key: T -> int) {
    forall i, j :: 0 <= i < j < |s| ==> key(s[i]) >= key(s[j])
  }

  /** Every key in `s` is below `bound`. */
  predicate KeysBelow<T>(s: seq<T>, key: T -> int, bound: int) {
    forall i :: 0 <= i < |s| ==> key(s[i]) < bound
  }

  /** Keys strictly increase along `s`. */
  predicate StrictlySortedBy<T>(s: seq<T>, key: T -> int) {
    forall i, j :: 0 <= i < j < |s| ==> key(s[i]) < key(s[j])
  }

  /** Put `x` into `s` after the leading records whose key is smaller. */
  function Insert<T>(x: T, s: seq<T>, key: T -> int): (r: seq<T>)
    ensures multiset(r) == multiset(s) + multiset{x}
  {
    if s == [] then [x]
    else if key(x) <= key(s[0]) then [x] + s
    else
      assert s == [s[0]] + s[1..];
      [s[0]] + Insert(x, s[1..], key)
  }

  /** Inserting into a sorted sequence keeps it sorted. */
  lemma {:induction false} InsertSorted<T>(x: T, s: seq<T>, key: T -> int)
    requires SortedBy(s, key)
    ensures SortedBy(Insert(x, s, key), key)
    decreases |s|
  {
    if s != [] && key(s[0]) < key(x) {
      var rest := Insert(x, s[1..], key);
      InsertSorted(x, s[1..], key);
      InsertBounded(x, s[1..], key, key(s[0]));
      assert Insert(x, s, key) == [s[0]] + rest;
    }
  }

  /** A lower bound of `x` and of every key in `s` bounds every key after
      the insertion. */
  lemma {:induction false} InsertBounded<T>(x: T, s: seq<T>, key: T -> int, b: int)
    requires b <= key(x) && forall k :: 0 <= k < |s| ==> b <= key(s[k])
    ensures forall k :: 0 <= k < |Insert(x, s, key)| ==> b <= key(Insert(x, s, key)[k])
    decreases |s|
  {
    if s != [] && key(s[0]) < key(x) {
      InsertBounded(x, s[1..], key, b);
      assert Insert(x, s, key) == [s[0]] + Insert(x, s[1..], key);
    }
  }

  /** Insertion sort by `key`: the same records, in ascending key order. */
  function SortBy<T>(s: seq<T>, key: T -> int): (r: seq<T>)
    ensures multiset(r) == multiset(s)
    ensures SortedBy(r, key)
  {
    if s == [] then []
    else
      assert s == [s[0]] + s[1..];
      var sorted := SortBy(s[1..], key);
      InsertSorted(s[0], sorted, key);
      Insert(s[0], sorted, key)
  }

  /** Sorting is determined when keys are distinct: an ordering with strictly
      increasing keys is the only ascending ordering of its records. */
  lemma {:induction false} SortedPermutationUnique<T>(s: seq<T>, t: seq<T>, key: T -> int)
    requires StrictlySortedBy(s, key) && SortedBy(t, key)
    requires multiset(s) == multiset(t)
    ensures s == t
    decreases |s|
  {
    if s == [] {
      assert |t| == |multiset(t)| == 0;
    } else {
      HeadsAgree(s, t, key);
      TailsPermute(s, t);
      assert StrictlySortedBy(s[1..], key) && SortedBy(t[1..], key);
      SortedPermutationUnique(s[1..], t[1..], key);
      assert s == [s[0]] + s[1..] && t == [t[0]] + t[1..];
    }
  }

  /** Two ascending orderings of the same records, one with distinct keys,
      start with the same record. */
  lemma HeadsAgree<T>(s: seq<T>, t: seq<T>, key: T -> int)
    requires StrictlySortedBy(s, key) && SortedBy(t, key)
    requires multiset(s) == multiset(t) && s != []
    ensures t != [] && s[0] == t[0]
  {
    assert s[0] in multiset(t);
    var j :| 0 <= j < |t| && t[j] == s[0];
    assert t[0] in multiset(s);
    var i :| 0 <= i < |s| && s[i] == t[0];
    assert key(t[0]) <= key(t[j]);
  }

  /** Removing the same first record from two permutations of each other
      leaves permutations of each other. */
  lemma TailsPermute<T>(s: seq<T>, t: seq<T>)
    requires s != [] && t != [] && s[0] == t[0]
    requires multiset(s) == multiset(t)
    ensures multiset(s[1..]) == multiset(t[1..])
  {
    assert s == [s[0]] + s[1..] && t == [t[0]] + t[1..];
    assert multiset(s) == multiset{s[0]} + multiset(s[1..]);
    assert multiset(t) == multiset{t[0]} + multiset(t[1..]);
    assert multiset(s[1..]) == multiset(s) - multiset{s[0]};
    assert multiset(t[1..]) == multiset(t) - multiset{t[0]};
  }

  /** A sequence already in ascending key order is left as it is, ties
      included: the sort is stable. */
  lemma {:induction false} SortSortedIsIdentity<T>(s: seq<T>, key: T -> int)
    requires SortedBy(s, key)
    ensures SortBy(s, key) == s
    decreases |s|
  {
    if s != [] {
      var t := s[1..];
      forall i, j | 0 <= i < j < |t| ensures key(t[i]) <= key(t[j]) {
        assert t[i] == s[i + 1] && t[j] == s[j + 1];
      }
      SortSortedIsIdentity(t, key);
      assert SortBy(s, key) == Insert(s[0], t, key);
      if t != [] {
        assert key(s[0]) <= key(t[0]);
      }
      assert s == [s[0]] + t;
    }
  }

  /** Appending a record whose key is above every key in `s`: every key is
      then below the next integer, and a strictly ascending `s` stays so. */
  lemma AppendAbove<T>(s: seq<T>, x: T, key: T -> int)
    ensures KeysBelow(s, key, key(x)) ==> KeysBelow(s + [x], key, key(x) + 1)
    ensures KeysBelow(s, key, key(x)) && StrictlySortedBy(s, key) ==> StrictlySortedBy(s + [x], key)
  {
    var t := s + [x];
    forall i | 0 <= i < |s| ensures t[i] == s[i] {
    }
  }
}
