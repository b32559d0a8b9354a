/** Stored names and the read-side de-duplication of `GET /api/names`: the
    collection is read oldest first and folded left, keeping an entry only when
    no entry kept so far has the same lower-cased name. */
module Names {
  import opened Text
  import opened Sorting

  datatype Option<T> = None | Some(value: T)

  /** A document of the `Name` collection; `createdAt` is the creation time. */
  datatype NameEntry = NameEntry(name: string, createdAt: nat)

  /** The sort key of `sort({ createdAt: 1 })`. */
  function CreatedAt(e: NameEntry): int { e.createdAt }

  /** The value names are compared by: the lower-cased name. */
  function Key(e: NameEntry): string { Lower(e.name) }

  ghost predicate HasKey(s: seq<NameEntry>, key: string) {
    exists k :: 0 <= k < |s| && Key(s[k]) == key
  }

  /** Index of the first entry of `s` whose name lower-cases to `key`, as
      `Array.prototype.find` and `findOne` in natural order report it. */
  function Find(s: seq<NameEntry>, key: string): (r: Option<nat>)
    ensures r.Some? ==> r.value < |s| && Key(s[r.value]) == key
    ensures r.Some? ==> forall j :: 0 <= j < r.value ==> Key(s[j]) != key
    ensures r.None? <==> !HasKey(s, key)
  {
    if s == [] then None
    else if Key(s[0]) == key then Some(0)
    else match Find(s[1..], key)
      case None => None
      case Some(i) =>
        assert Key(s[1..][i]) == key;
        Some(i + 1)
  }

  /** No two entries share a lower-cased name. */
  predicate UniqueCI(s: seq<NameEntry>) {
    forall i, j :: 0 <= i < j < |s| ==> Key(s[i]) != Key(s[j])
  }

  /** The reducer: append `current` unless an entry with its lower-cased name
      has already been kept. Entries kept earlier stay, at most `current` is
      added, afterwards its name is represented, and no case duplicate
      appears. */
  function Step(kept: seq<NameEntry>, current: NameEntry): (r: seq<NameEntry>)
    ensures |kept| <= |r| <= |kept| + 1 && r[..|kept|] == kept
    ensures |r| == |kept| + 1 ==> r[|kept|] == current
    ensures HasKey(r, Key(current))
    ensures UniqueCI(kept) ==> UniqueCI(r)
  {
    match Find(kept, Key(current))
    case None =>
      var r := kept + [current];
      assert Key(r[|kept|]) == Key(current);
      assert forall j :: 0 <= j < |kept| ==> r[j] == kept[j];
      r
    case Some(i) => kept
  }

  /** `reduce` from the left with accumulator `acc`: the accumulator is never
      rewritten, only extended by at most one entry per record, and stays
      free of case duplicates. */
  function Fold(acc: seq<NameEntry>, s: seq<NameEntry>): (r: seq<NameEntry>)
    ensures |acc| <= |r| <= |acc| + |s| && r[..|acc|] == acc
    ensures UniqueCI(acc) ==> UniqueCI(r)
    decreases |s|
  {
    if s == [] then acc
    else
      var next := Step(acc, s[0]);
      var r := Fold(next, s[1..]);
      assert r[..|acc|] == next[..|next|][..|acc|];
      r
  }

  /** The list the endpoint returns for a store sorted oldest first: no case
      duplicates and no more entries than the store. */
  function Dedup(s: seq<NameEntry>): (r: seq<NameEntry>)
    ensures UniqueCI(r) && |r| <= |s|
  {
    Fold([], s)
  }

  /** Entry `i` is the first of `s` with its lower-cased name. */
  ghost predicate IsFirst(s: seq<NameEntry>, i: int) {
    0 <= i < |s| && forall j :: 0 <= j < i ==> Key(s[j]) != Key(s[i])
  }

  /** `r` is the subsequence of `s` picked out by the increasing indices `idx`. */
  ghost predicate SubseqAt(r: seq<NameEntry>, s: seq<NameEntry>, idx: seq<nat>) {
    |idx| == |r|
    && (forall k :: 0 <= k < |idx| ==> idx[k] < |s| && r[k] == s[idx[k]])
    && (forall k, l :: 0 <= k < l < |idx| ==> idx[k] < idx[l])
  }

  /** Folding over one more element is one more reducer step. */
  lemma {:induction false} FoldSnoc(acc: seq<NameEntry>, s: seq<NameEntry>, x: NameEntry)
    ensures Fold(acc, s + [x]) == Step(Fold(acc, s), x)
    decreases |s|
  {
    if s == [] {
      assert [] + [x] == [x];
    } else {
      assert (s + [x])[1..] == s[1..] + [x];
      FoldSnoc(Step(acc, s[0]), s[1..], x);
    }
  }

  /** Where each kept entry came from: the kept entries are the first
      occurrences of their names, taken in order, and every name of the store
      is kept. */
  lemma {:induction false} DedupTrace(s: seq<NameEntry>) returns (idx: seq<nat>)
    ensures Traced(s, Dedup(s), idx)
    decreases |s|
  {
    if s == [] {
      idx := [];
    } else {
      var p, x := s[..|s| - 1], s[|s| - 1];
      assert s == p + [x];
      var pidx := DedupTrace(p);
      FoldSnoc([], p, x);
      idx := TraceStep(p, Dedup(p), pidx, x);
    }
  }

  /** The facts DedupTrace establishes about the store `s`, its list `r` and
      the positions `idx` the list was taken from. */
  ghost predicate Traced(s: seq<NameEntry>, r: seq<NameEntry>, idx: seq<nat>) {
    SubseqAt(r, s, idx)
    && (forall k :: 0 <= k < |idx| ==> IsFirst(s, idx[k]))
    && (forall i :: 0 <= i < |s| ==> HasKey(r, Key(s[i])))
  }

  /** One reducer step keeps the trace. */
  lemma TraceStep(p: seq<NameEntry>, r: seq<NameEntry>, pidx: seq<nat>, x: NameEntry)
    returns (idx: seq<nat>)
    requires Traced(p, r, pidx)
    ensures Traced(p + [x], Step(r, x), idx)
  {
    TracePrefix(p, pidx, x);
    if Find(r, Key(x)).None? {
      idx := pidx + [|p|];
      TraceAppendNew(p, r, x);
      SubseqExtend(r, p, pidx, x);
    } else {
      idx := pidx;
      TraceAppendOld(p, r, x);
      assert SubseqAt(r, p + [x], pidx) by {
        forall k | 0 <= k < |pidx| ensures (p + [x])[pidx[k]] == p[pidx[k]] { }
      }
    }
  }

  /** First occurrences in `p` stay first occurrences after an append. */
  lemma TracePrefix(p: seq<NameEntry>, pidx: seq<nat>, x: NameEntry)
    requires forall k :: 0 <= k < |pidx| ==> IsFirst(p, pidx[k])
    ensures forall k :: 0 <= k < |pidx| ==> IsFirst(p + [x], pidx[k])
  {
    forall k | 0 <= k < |pidx| ensures IsFirst(p + [x], pidx[k]) {
      assert IsFirst(p, pidx[k]);
      forall j | 0 <= j <= pidx[k] ensures (p + [x])[j] == p[j] { }
    }
  }

  /** Appending to both sequences extends the subsequence by the new last
      position. */
  lemma SubseqExtend(r: seq<NameEntry>, p: seq<NameEntry>, pidx: seq<nat>, x: NameEntry)
    requires SubseqAt(r, p, pidx)
    ensures SubseqAt(r + [x], p + [x], pidx + [|p|])
  {
    var idx := pidx + [|p|];
    forall k | 0 <= k < |idx| ensures idx[k] < |p| + 1 && (r + [x])[k] == (p + [x])[idx[k]] {
      if k < |pidx| {
        assert idx[k] == pidx[k] && (r + [x])[k] == r[k];
      }
    }
  }

  /** The case of TraceStep where `x` carries a name already kept. */
  lemma TraceAppendOld(p: seq<NameEntry>, r: seq<NameEntry>, x: NameEntry)
    requires forall i :: 0 <= i < |p| ==> HasKey(r, Key(p[i]))
    requires Find(r, Key(x)).Some?
    ensures forall i :: 0 <= i < |p| + 1 ==> HasKey(r, Key((p + [x])[i]))
  {
    var m := Find(r, Key(x)).value;
    forall i | 0 <= i < |p| + 1 ensures HasKey(r, Key((p + [x])[i])) {
      if i < |p| {
        assert (p + [x])[i] == p[i];
      } else {
        assert Key(r[m]) == Key(x);
      }
    }
  }

  /** The case of TraceStep where `x` carries a name not kept so far. */
  lemma TraceAppendNew(p: seq<NameEntry>, r: seq<NameEntry>, x: NameEntry)
    requires forall i :: 0 <= i < |p| ==> HasKey(r, Key(p[i]))
    requires !HasKey(r, Key(x))
    ensures IsFirst(p + [x], |p|)
    ensures forall i :: 0 <= i < |p| + 1 ==> HasKey(r + [x], Key((p + [x])[i]))
  {
    var s := p + [x];
    forall j | 0 <= j < |p| ensures Key(s[j]) != Key(x) {
      assert HasKey(r, Key(p[j]));
    }
    forall i | 0 <= i < |s| ensures HasKey(r + [x], Key(s[i])) {
      if i < |p| {
        assert HasKey(r, Key(p[i]));
        var k :| 0 <= k < |r| && Key(r[k]) == Key(p[i]);
        assert (r + [x])[k] == r[k];
      } else {
        assert (r + [x])[|r|] == x;
      }
    }
  }

  /** The list is a subsequence of the store: every listed entry is a stored
      one and stored order is kept. */
  lemma DedupSubsequence(s: seq<NameEntry>)
    ensures exists idx :: SubseqAt(Dedup(s), s, idx)
  {
    var idx := DedupTrace(s);
  }

  /** A lower-cased name appears in the list exactly when it appears in the
      store. */
  lemma DedupCovers(s: seq<NameEntry>, key: string)
    ensures HasKey(Dedup(s), key) <==> HasKey(s, key)
  {
    var idx := DedupTrace(s);
    var r := Dedup(s);
    if HasKey(r, key) {
      var k :| 0 <= k < |r| && Key(r[k]) == key;
      assert Key(s[idx[k]]) == key;
    }
  }

  /** A record that is the only one of the input with its lower-cased name
      is listed. */
  lemma DedupListsSoleHolder(s: seq<NameEntry>, x: NameEntry)
    requires x in s
    requires forall j :: 0 <= j < |s| && Key(s[j]) == Key(x) ==> s[j] == x
    ensures x in Dedup(s)
  {
    var idx := DedupTrace(s);
    var r := Dedup(s);
    var i :| 0 <= i < |s| && s[i] == x;
    assert HasKey(r, Key(s[i]));
    var k :| 0 <= k < |r| && Key(r[k]) == Key(x);
    assert r[k] == s[idx[k]];
  }

  /** For each name of the store, the listed entry is the first stored entry
      with that lower-cased name, which in a store sorted by creation time is
      one of the earliest created. */
  lemma DedupKeepsEarliest(s: seq<NameEntry>, key: string)
    requires HasKey(s, key)
    ensures Find(Dedup(s), key).Some?
    ensures Dedup(s)[Find(Dedup(s), key).value] == s[Find(s, key).value]
    ensures SortedBy(s, CreatedAt) ==> forall j :: 0 <= j < |s| && Key(s[j]) == key ==>
              Dedup(s)[Find(Dedup(s), key).value].createdAt <= s[j].createdAt
  {
    var idx := DedupTrace(s);
    var r := Dedup(s);
    var i := Find(s, key).value;
    assert HasKey(r, Key(s[i]));
    var m := Find(r, key).value;
    assert r[m] == s[idx[m]] && IsFirst(s, idx[m]);
    assert idx[m] == i;
    if SortedBy(s, CreatedAt) {
      FirstIsEarliest(s, key);
    }
  }

  /** In a store sorted by creation time, the first entry with a given
      lower-cased name is one of the earliest created with it. */
  lemma FirstIsEarliest(s: seq<NameEntry>, key: string)
    requires Find(s, key).Some? && SortedBy(s, CreatedAt)
    ensures forall j :: 0 <= j < |s| && Key(s[j]) == key ==> s[Find(s, key).value].createdAt <= s[j].createdAt
  {
    var i := Find(s, key).value;
    forall j | 0 <= j < |s| && Key(s[j]) == key ensures s[i].createdAt <= s[j].createdAt {
      assert i <= j;
      if i < j {
        assert CreatedAt(s[i]) <= CreatedAt(s[j]);
      }
    }
  }

  /** Folding an already unique list changes nothing. */
  lemma {:induction false} DedupOfUnique(u: seq<NameEntry>)
    requires UniqueCI(u)
    ensures Dedup(u) == u
    decreases |u|
  {
    if u != [] {
      var p, x := u[..|u| - 1], u[|u| - 1];
      assert u == p + [x];
      UniqueSnoc(p, x);
      DedupOfUnique(p);
      FoldSnoc([], p, x);
    }
  }

  /** Dropping the last entry of a unique list leaves a unique list without
      that entry's name. */
  lemma UniqueSnoc(p: seq<NameEntry>, x: NameEntry)
    requires UniqueCI(p + [x])
    ensures UniqueCI(p) && Find(p, Key(x)).None?
  {
    var u := p + [x];
    forall i, j | 0 <= i < j < |p| ensures Key(p[i]) != Key(p[j]) {
      assert p[i] == u[i] && p[j] == u[j];
    }
    forall j | 0 <= j < |p| ensures Key(p[j]) != Key(x) {
      assert p[j] == u[j] && x == u[|p|];
    }
  }

  /** De-duplicating the list again gives the same list. */
  lemma DedupIdempotent(s: seq<NameEntry>)
    ensures Dedup(Dedup(s)) == Dedup(s)
  {
    DedupOfUnique(Dedup(s));
  }

  /** A store entry with a new lower-cased name is listed at the end. */
  lemma DedupAppendNew(s: seq<NameEntry>, x: NameEntry)
    requires !HasKey(s, Key(x))
    ensures Dedup(s + [x]) == Dedup(s) + [x]
  {
    FoldSnoc([], s, x);
    DedupCovers(s, Key(x));
  }

  /** A store entry whose lower-cased name is already stored is not listed. */
  lemma DedupAppendDuplicate(s: seq<NameEntry>, x: NameEntry)
    requires HasKey(s, Key(x))
    ensures Dedup(s + [x]) == Dedup(s)
  {
    FoldSnoc([], s, x);
    DedupCovers(s, Key(x));
  }

  /** The list of a store sorted by creation time is sorted too, strictly
      when the store is. */
  lemma DedupKeepsOrder(s: seq<NameEntry>)
    ensures SortedBy(s, CreatedAt) ==> SortedBy(Dedup(s), CreatedAt)
    ensures StrictlySortedBy(s, CreatedAt) ==> StrictlySortedBy(Dedup(s), CreatedAt)
  {
    var idx := DedupTrace(s);
    var r := Dedup(s);
    forall i, j | 0 <= i < j < |r| ensures r[i] == s[idx[i]] && r[j] == s[idx[j]] && idx[i] < idx[j] {
    }
  }

  /** Reordering the store changes no name's presence. */
  lemma HasKeyPermutation(s: seq<NameEntry>, t: seq<NameEntry>, key: string)
    requires multiset(s) == multiset(t)
    ensures HasKey(s, key) <==> HasKey(t, key)
  {
    if HasKey(s, key) {
      var k :| 0 <= k < |s| && Key(s[k]) == key;
      assert s[k] in multiset(t);
      var m :| 0 <= m < |t| && t[m] == s[k];
    }
    if HasKey(t, key) {
      var k :| 0 <= k < |t| && Key(t[k]) == key;
      assert t[k] in multiset(s);
      var m :| 0 <= m < |s| && s[m] == t[k];
    }
  }
}
