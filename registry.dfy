/** The server's state and its four API operations: the `Name` and `Feedback`
    collections as sequences in insertion order, and the timestamp source as a
    counter that every save advances. */
module Server {
  import opened Text
  import opened Sorting
  import opened Names
  import opened Feedback

  class Registry {
    var names: seq<NameEntry>
    var feedback: seq<FeedbackEntry>
    /** The next creation time; stands for `Date.now`. Nothing ties it to the
        stored times: records written by other means may carry later ones, and
        a wall clock may step back. */
    var clock: nat

    /** An empty database. */
    constructor ()
      ensures names == [] && feedback == [] && clock == 0
    {
      names, feedback, clock := [], [], 0;
    }

    /** A database that already holds records, possibly written by other
        means than this server, and so possibly with case duplicates, in any
        order and with any times. */
    constructor Open(storedNames: seq<NameEntry>, storedFeedback: seq<FeedbackEntry>, now: nat)
      ensures names == storedNames && feedback == storedFeedback && clock == now
    {
      names, feedback, clock := storedNames, storedFeedback, now;
    }

    /** GET /api/names: the stored names sorted oldest first, then one entry
        per lower-cased name, the first in that order. When the store is
        already sorted, the sort leaves it as it is and the list is the fold
        of the store itself; the POST routes keep the store sorted while every
        stored time is before the clock (see `CreateName`). */
    method ListNames() returns (r: seq<NameEntry>)
      ensures r == Dedup(SortBy(names, CreatedAt))
      ensures UniqueCI(r) && SortedBy(r, CreatedAt)
      ensures forall key :: HasKey(r, key) <==> HasKey(names, key)
      ensures SortedBy(names, CreatedAt) ==> r == Dedup(names)
      ensures StrictlySortedBy(names, CreatedAt) ==> StrictlySortedBy(r, CreatedAt)
    {
      var sorted := SortBy(names, CreatedAt);
      r := Dedup(sorted);
      DedupKeepsOrder(sorted);
      forall key ensures HasKey(r, key) <==> HasKey(names, key) {
        DedupCovers(sorted, key);
        HasKeyPermutation(sorted, names, key);
      }
      if SortedBy(names, CreatedAt) {
        SortSortedIsIdentity(names, CreatedAt);
        DedupKeepsOrder(names);
      }
    }

    /** POST /api/names: return the first stored entry whose name matches
        `name` case-insensitively, writing nothing; otherwise save one new
        entry with `name` exactly as given and return it. Either way the
        returned entry is the one a later lookup of the same name finds, and
        the one the fold of the store shows, which is the list when the store
        is sorted. A newly saved entry is shown by the list whatever the
        stored order. When every stored time is before the clock, it stays
        so, and a store in strict creation order stays in it. */
    method CreateName(name: string) returns (e: NameEntry)
      modifies this
      ensures feedback == old(feedback)
      ensures match Find(old(names), Lower(name))
        case Some(i) => e == old(names)[i] && names == old(names) && clock == old(clock)
        case None => e == NameEntry(name, old(clock)) && names == old(names) + [e] && clock == old(clock) + 1
      ensures Find(names, Lower(name)).Some? && names[Find(names, Lower(name)).value] == e
      ensures Find(Dedup(names), Lower(name)).Some? && Dedup(names)[Find(Dedup(names), Lower(name)).value] == e
      // Stated for every sequence equal to the store, so that a caller that
      // never lists the store is not made to unfold the sort.
      ensures Find(old(names), Lower(name)).None? ==>
                forall store :: store == names ==> e in Dedup(SortBy(store, CreatedAt))
      ensures UniqueCI(old(names)) ==> UniqueCI(names)
      ensures KeysBelow(old(names), CreatedAt, old(clock)) ==> KeysBelow(names, CreatedAt, clock)
      ensures KeysBelow(old(names), CreatedAt, old(clock)) && StrictlySortedBy(old(names), CreatedAt) ==>
                StrictlySortedBy(names, CreatedAt)
    {
      match Find(names, Lower(name)) {
        case Some(i) =>
          e := names[i];
          FoldShowsFound(names, Lower(name));
        case None =>
          e := Save(name);
          FindAppended(old(names), e);
          AppendNewKeepsUnique(old(names), e);
          FoldShowsFound(names, Lower(name));
      }
    }

    /** `new Name({ name }).save()`: append one record stamped with the
        clock. When the store held no record with its lower-cased name, the
        sorted list then shows the new record, whatever the stored order;
        when every stored time is before the clock, it stays so, and a store
        in strict creation order stays in it. */
    method Save(name: string) returns (e: NameEntry)
      modifies this
      ensures e == NameEntry(name, old(clock))
      ensures names == old(names) + [e] && clock == old(clock) + 1 && feedback == old(feedback)
      ensures Find(old(names), Lower(name)).None? ==> e in Dedup(SortBy(names, CreatedAt))
      ensures KeysBelow(old(names), CreatedAt, old(clock)) ==> KeysBelow(names, CreatedAt, clock)
      ensures KeysBelow(old(names), CreatedAt, old(clock)) && StrictlySortedBy(old(names), CreatedAt) ==>
                StrictlySortedBy(names, CreatedAt)
    {
      e := NameEntry(name, clock);
      AppendAbove(names, e, CreatedAt);
      names := names + [e];
      clock := clock + 1;
      if Find(old(names), Lower(name)).None? {
        NewNameListed(old(names), e);
      }
    }

    /** POST /api/feedback: save the submission as a new record, whatever the
        log already holds. When every logged time is before the clock, it
        stays so, and a log in strict creation order stays in it. */
    method SubmitFeedback(name: string, email: string, message: string, rating: int)
      returns (f: FeedbackEntry)
      modifies this
      ensures names == old(names)
      ensures f == FeedbackEntry(name, email, message, rating, old(clock))
      ensures feedback == old(feedback) + [f] && clock == old(clock) + 1
      ensures KeysBelow(old(feedback), SubmittedAt, old(clock)) ==> KeysBelow(feedback, SubmittedAt, clock)
      ensures KeysBelow(old(feedback), SubmittedAt, old(clock)) && StrictlySortedBy(old(feedback), SubmittedAt) ==>
                StrictlySortedBy(feedback, SubmittedAt)
    {
      f := FeedbackEntry(name, email, message, rating, clock);
      AppendAbove(feedback, f, SubmittedAt);
      feedback := feedback + [f];
      clock := clock + 1;
    }

    /** GET /api/feedback: every record, newest first. When the log is in
        creation order, that is the log read back to front; `SubmitFeedback`
        keeps it in that order while every logged time is before the clock. */
    method ListFeedback() returns (r: seq<FeedbackEntry>)
      ensures r == NewestFirst(SortBy(feedback, SubmittedAt))
      ensures multiset(r) == multiset(feedback) && DescendingBy(r, SubmittedAt)
      ensures SortedBy(feedback, SubmittedAt) ==> r == NewestFirst(feedback)
    {
      var sorted := SortBy(feedback, SubmittedAt);
      r := NewestFirst(sorted);
      NewestFirstPermutes(sorted);
      NewestFirstSorted(sorted);
      if SortedBy(feedback, SubmittedAt) {
        SortSortedIsIdentity(feedback, SubmittedAt);
      }
    }
  }

  /** The outcome of the create path's query: the query cannot be built or
      sent, so the handler replies 500, or it answers with the index of the
      first matching record, if any. */
  datatype Query = QueryFails | Answered(found: Option<nat>)

  /** A character the query can carry: U+0000 cannot appear in a pattern the
      database accepts, and `RegExp.prototype.source` writes U+2028 and U+2029
      as `\u` escapes, which PCRE refuses. */
  predicate QueryableChar(c: char) {
    c != '\0' && c != '\U{2028}' && c != '\U{2029}'
  }

  /** A name whose pattern the query can carry. */
  predicate Queryable(name: string) {
    forall i :: 0 <= i < |name| ==> QueryableChar(name[i])
  }

  /** The lookup of the create path as written: `findOne` with the unescaped
      pattern `^name$` and the `i` option, evaluated by the database's PCRE
      engine, for names whose only metacharacter is `.`. It fails for a name
      the query cannot carry, and otherwise reports the first stored entry the
      pattern matches. */
  function FindAsWritten(s: seq<NameEntry>, name: string): (r: Query)
    requires WildcardPattern(name)
    ensures r.QueryFails? <==> !Queryable(name)
    ensures r.Answered? && r.found.Some? ==>
              r.found.value < |s| && AnchoredMatchCI(name, s[r.found.value].name)
              && forall j :: 0 <= j < r.found.value ==> !AnchoredMatchCI(name, s[j].name)
    ensures r.Answered? && r.found.None? ==> forall j :: 0 <= j < |s| ==> !AnchoredMatchCI(name, s[j].name)
  {
    if Queryable(name) then Answered(FirstMatch(s, name)) else QueryFails
  }

  /** The first stored entry the pattern `^name$` with the `i` option matches. */
  function FirstMatch(s: seq<NameEntry>, name: string): (r: Option<nat>)
    requires WildcardPattern(name)
    ensures r.Some? ==> r.value < |s| && AnchoredMatchCI(name, s[r.value].name)
    ensures r.Some? ==> forall j :: 0 <= j < r.value ==> !AnchoredMatchCI(name, s[j].name)
    ensures r.None? ==> forall j :: 0 <= j < |s| ==> !AnchoredMatchCI(name, s[j].name)
  {
    if s == [] then None
    else if AnchoredMatchCI(name, s[0].name) then Some(0)
    else match FirstMatch(s[1..], name)
      case None => None
      case Some(i) =>
        assert s[1..][i] == s[i + 1];
        Some(i + 1)
  }

  /** No stored name ends in a newline. */
  predicate NoFinalNewlines(s: seq<NameEntry>) {
    forall j :: 0 <= j < |s| ==> !EndsWithNewline(s[j].name)
  }

  /** For a name without metacharacters that the query can carry, and a
      store where no name ends in a newline, the lookup as written answers and
      finds the same entry as the case-insensitive equality lookup that
      CreateName uses. */
  lemma FindAsWrittenAgrees(s: seq<NameEntry>, name: string)
    requires NoRegexMeta(name) && Queryable(name) && NoFinalNewlines(s)
    ensures FindAsWritten(s, name) == Answered(Find(s, Lower(name)))
  {
    forall j | 0 <= j < |s| ensures AnchoredMatchCI(name, s[j].name) <==> Key(s[j]) == Lower(name) {
      AnchoredMatchIffSameLower(name, s[j].name);
    }
  }

  /** The name "alice", without metacharacters, posted to a store holding
      "Alice" followed by a newline: `$` matches before that final newline, so
      the lookup as written finds the stored record and the handler returns it,
      although the two names differ after lower-casing. */
  lemma FinalNewlineFindsOtherName()
    ensures FindAsWritten([NameEntry("Alice\n", 0)], "alice") == Answered(Some(0))
    ensures Find([NameEntry("Alice\n", 0)], Lower("alice")) == None
  {
    var stored := "Alice\n";
    assert stored[..|stored| - 1] == "Alice";
    assert BodyMatchCI("alice", "Alice");
    assert AnchoredMatchCI("alice", stored);
    assert Queryable("alice");
    assert |Lower(stored)| != |Lower("alice")|;
  }

  /** The name "." posted to a store holding only "x": the lookup as written
      finds "x" and the handler returns it without saving ".", although the
      two names differ after lower-casing. */
  lemma WildcardNameFindsOtherName()
    ensures FindAsWritten([NameEntry("x", 0)], ".") == Answered(Some(0))
    ensures Find([NameEntry("x", 0)], Lower(".")) == None
  {
    assert AnchoredMatchCI(".", "x");
    assert Lower(".") == "." && Lower("x") == "x";
  }

  /** The names "a" followed by U+0000, and "a" followed by U+2028, posted to
      a store holding the same names with a capital: the query as written
      fails, so the handler replies 500, while the case-insensitive equality
      lookup finds the stored record. */
  lemma UnqueryableNameFails()
    ensures FindAsWritten([NameEntry("A\0", 0)], "a\0") == QueryFails
    ensures Find([NameEntry("A\0", 0)], Lower("a\0")) == Some(0)
    ensures FindAsWritten([NameEntry("A\U{2028}", 0)], "a\U{2028}") == QueryFails
    ensures Find([NameEntry("A\U{2028}", 0)], Lower("a\U{2028}")) == Some(0)
  {
    assert !QueryableChar("a\0"[1]) && !QueryableChar("a\U{2028}"[1]);
    assert Lower("A\0") == Lower("a\0") && Lower("A\U{2028}") == Lower("a\U{2028}");
  }

  /** A name saved into a store that does not hold it is listed, whatever
      the stored order: it is the only record with its lower-cased name. */
  lemma NewNameListed(s: seq<NameEntry>, x: NameEntry)
    requires Find(s, Key(x)).None?
    ensures x in Dedup(SortBy(s + [x], CreatedAt))
  {
    var u := s + [x];
    var t := SortBy(u, CreatedAt);
    assert u[|s|] == x;
    assert x in multiset(t);
    forall j | 0 <= j < |t| && Key(t[j]) == Key(x) ensures t[j] == x {
      assert t[j] in multiset(u);
      var m :| 0 <= m < |u| && u[m] == t[j];
    }
    DedupListsSoleHolder(t, x);
  }

  /** Appending an entry with a new lower-cased name makes it the one a
      lookup of that name finds. */
  lemma FindAppended(s: seq<NameEntry>, x: NameEntry)
    requires Find(s, Key(x)).None?
    ensures Find(s + [x], Key(x)) == Some(|s|)
  {
    var t := s + [x];
    assert Key(t[|s|]) == Key(x);
    forall j | 0 <= j < |s| ensures Key(t[j]) != Key(x) {
      assert t[j] == s[j];
    }
  }

  /** Appending an entry with a new lower-cased name keeps the store free of
      case duplicates. */
  lemma AppendNewKeepsUnique(s: seq<NameEntry>, x: NameEntry)
    requires Find(s, Key(x)).None?
    ensures UniqueCI(s) ==> UniqueCI(s + [x])
  {
    var t := s + [x];
    forall i | 0 <= i < |s| ensures Key(t[i]) != Key(x) {
      assert t[i] == s[i];
    }
  }

  /** The entry a lookup finds in the store is the one the fold of the store
      shows for that name. */
  lemma FoldShowsFound(s: seq<NameEntry>, key: string)
    requires Find(s, key).Some?
    ensures Find(Dedup(s), key).Some? && Dedup(s)[Find(Dedup(s), key).value] == s[Find(s, key).value]
  {
    DedupKeepsEarliest(s, key);
  }
}
