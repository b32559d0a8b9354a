/** Client programs that drive a fresh registry through the behaviours the
    service promises, proved from the operations' contracts alone. */
module Scenarios {
  import opened Text
  import opened Sorting
  import opened Names
  import opened Feedback
  import opened Server

  /** Creating "Alice" and then "alice" stores one entry, and the second call
      returns the entry the first one created. */
  method CreateTwiceCaseVariant() returns (first: NameEntry, second: NameEntry, stored: nat)
    ensures first == second && first.name == "Alice" && stored == 1
  {
    var reg;
    reg, first := CreateAlice();
    AliceSpellings();
    assert Find(reg.names, Lower("alice")) == Some(0);
    second := reg.CreateName("alice");
    stored := |reg.names|;
  }

  /** A fresh registry after creating "Alice". */
  method CreateAlice() returns (reg: Registry, first: NameEntry)
    ensures fresh(reg)
    ensures reg.names == [first] && first == NameEntry("Alice", 0)
  {
    reg := new Registry();
    first := reg.CreateName("Alice");
  }

  /** The two spellings used above have one lower-case form. */
  lemma AliceSpellings()
    ensures Lower("Alice") == "alice" && Lower("alice") == "alice"
  {
    assert Lower("Alice") == "alice";
  }

  /** Creating "B" and then "A" lists B before A. */
  method ListInCreationOrder() returns (listed: seq<NameEntry>)
    ensures |listed| == 2 && listed[0].name == "B" && listed[1].name == "A"
    ensures listed[0].createdAt < listed[1].createdAt
  {
    var reg := CreateBThenA();
    BThenA();
    DedupOfUnique(reg.names);
    listed := reg.ListNames();
  }

  /** A fresh registry after creating "B" and then "A". */
  method CreateBThenA() returns (reg: Registry)
    ensures fresh(reg) && reg.names == [NameEntry("B", 0), NameEntry("A", 1)]
  {
    var b;
    reg, b := CreateB();
    AAfterB();
    assert Find(reg.names, Lower("A")) == None;
    var a := reg.CreateName("A");
    assert a == NameEntry("A", 1) && reg.names == [b] + [a];
  }

  /** "A" is not found in a store holding only "B". */
  lemma AAfterB()
    ensures Find([NameEntry("B", 0)], Lower("A")) == None
  {
    assert Lower("A") == "a" && Lower("B") == "b";
  }

  /** "B" then "A", created in that order, are in creation order and differ
      after lower-casing. */
  lemma BThenA()
    ensures SortedBy([NameEntry("B", 0), NameEntry("A", 1)], CreatedAt)
    ensures UniqueCI([NameEntry("B", 0), NameEntry("A", 1)])
  {
    AAfterB();
  }

  /** A fresh registry after creating "B". */
  method CreateB() returns (reg: Registry, b: NameEntry)
    ensures fresh(reg)
    ensures reg.names == [b] && b == NameEntry("B", 0) && reg.clock == 1
  {
    reg := new Registry();
    b := reg.CreateName("B");
  }

  /** Two stored entries that differ only in case, written directly to the
      store: the list shows only the earlier one. */
  method ListDropsDirectDuplicate() returns (listed: seq<NameEntry>)
    ensures listed == [NameEntry("Bob", 1)]
  {
    var stored := [NameEntry("Bob", 1), NameEntry("BOB", 2)];
    var reg := new Registry.Open(stored, [], 3);
    assert SortedBy(stored, CreatedAt);
    BobSpellings();
    SameNameTwice(NameEntry("Bob", 1), NameEntry("BOB", 2));
    listed := reg.ListNames();
  }

  /** The same two spellings written directly in the store at the same
      time: the sort keeps their stored order, so the list shows the one
      stored first. */
  method ListTieKeepsStoredFirst() returns (listed: seq<NameEntry>)
    ensures listed == [NameEntry("Bob", 1)]
  {
    var stored := [NameEntry("Bob", 1), NameEntry("BOB", 1)];
    var reg := new Registry.Open(stored, [], 3);
    assert SortedBy(stored, CreatedAt);
    BobSpellings();
    SameNameTwice(NameEntry("Bob", 1), NameEntry("BOB", 1));
    listed := reg.ListNames();
  }

  /** A store holding "Zed" with a time later than the server's clock:
      posting "Amy" saves it with an earlier time than "Zed", so the list
      shows "Amy" first although it was stored last. */
  method FutureDatedStore() returns (listed: seq<NameEntry>)
    ensures listed == [NameEntry("Amy", 0), NameEntry("Zed", 5)]
  {
    var reg := CreateAmyBesideZed();
    SortSwapsTwo(NameEntry("Zed", 5), NameEntry("Amy", 0));
    AmyAndZed();
    DedupOfUnique([NameEntry("Amy", 0), NameEntry("Zed", 5)]);
    listed := reg.ListNames();
  }

  /** The store of the scenario above after posting "Amy". */
  method CreateAmyBesideZed() returns (reg: Registry)
    ensures fresh(reg) && reg.names == [NameEntry("Zed", 5), NameEntry("Amy", 0)]
  {
    reg := new Registry.Open([NameEntry("Zed", 5)], [], 0);
    AmyAndZed();
    var amy := reg.CreateName("Amy");
  }

  /** "Amy" and "Zed" differ after lower-casing. */
  lemma AmyAndZed()
    ensures Find([NameEntry("Zed", 5)], Lower("Amy")) == None
    ensures UniqueCI([NameEntry("Amy", 0), NameEntry("Zed", 5)])
  {
    assert Lower("Amy") == "amy" && Lower("Zed") == "zed";
  }

  /** The same two spellings written directly in the store newest first: the
      list sorts by creation time and shows the older "BOB". */
  method OutOfOrderList() returns (listed: seq<NameEntry>)
    ensures listed == [NameEntry("BOB", 1)]
  {
    var newer, older := NameEntry("Bob", 2), NameEntry("BOB", 1);
    var reg := new Registry.Open([newer, older], [], 3);
    SortSwapsTwo(newer, older);
    BobSpellings();
    SameNameTwice(older, newer);
    listed := reg.ListNames();
  }

  /** The same store: posting "bob" returns the first stored match, the newer
      "Bob", which is not the entry the list shows. */
  method OutOfOrderCreate() returns (created: NameEntry)
    ensures created == NameEntry("Bob", 2)
  {
    var newer, older := NameEntry("Bob", 2), NameEntry("BOB", 1);
    var reg := new Registry.Open([newer, older], [], 3);
    BobSpellings();
    assert Find(reg.names, Lower("bob")) == Some(0);
    created := reg.CreateName("bob");
  }

  /** Two entries with one lower-cased name: the fold keeps only the first. */
  lemma SameNameTwice(first: NameEntry, second: NameEntry)
    requires Key(first) == Key(second)
    ensures Dedup([first, second]) == [first]
  {
    assert Dedup([first]) == [first] by {
      DedupOfUnique([first]);
    }
    assert HasKey([first], Key(second));
    assert [first, second] == [first] + [second];
    DedupAppendDuplicate([first], second);
  }

  /** The three spellings used above have one lower-case form. */
  lemma BobSpellings()
    ensures Lower("Bob") == "bob" && Lower("BOB") == "bob" && Lower("bob") == "bob"
  {
    assert Lower("Bob") == "bob" && Lower("BOB") == "bob";
  }

  /** Two records stored newest first come out of the sort swapped. */
  lemma SortSwapsTwo(newer: NameEntry, older: NameEntry)
    requires older.createdAt < newer.createdAt
    ensures SortBy([newer, older], CreatedAt) == [older, newer]
  {
    var sorted := SortBy([newer, older], CreatedAt);
    assert multiset(sorted) == multiset([older, newer]) by {
      assert [newer, older] == [newer] + [older] && [older, newer] == [older] + [newer];
    }
    assert StrictlySortedBy([older, newer], CreatedAt);
    SortedPermutationUnique([older, newer], sorted, CreatedAt);
  }

  /** Submitting the same feedback twice stores two distinct records. */
  method FeedbackTwice() returns (a: FeedbackEntry, b: FeedbackEntry, count: nat)
    ensures a != b && count == 2
    ensures a.message == b.message == "Nice" && a.rating == b.rating == 5
  {
    var reg := new Registry();
    a := reg.SubmitFeedback("Ann", "ann@example.org", "Nice", 5);
    b := reg.SubmitFeedback("Ann", "ann@example.org", "Nice", 5);
    count := |reg.feedback|;
  }
}
