/** The feedback collection: an append-only log listed newest first. */
module Feedback {
  import opened Sorting

  /** A document of the `Feedback` collection. None of the fields is
      validated; `rating` is whatever number the client sent. */
  datatype FeedbackEntry = FeedbackEntry(name: string, email: string, message: string, rating: int, createdAt: nat)

  /** The sort key of the feedback listing. */
  function SubmittedAt(f: FeedbackEntry): int { f.createdAt }

  /** The log read back to front. */
  function NewestFirst(s: seq<FeedbackEntry>): (r: seq<FeedbackEntry>)
    ensures |r| == |s|
    ensures forall i :: 0 <= i < |s| ==> r[i] == s[|s| - 1 - i]
  {
    if s == [] then [] else NewestFirst(s[1..]) + [s[0]]
  }

  /** Reading back to front loses and adds no record. */
  lemma {:induction false} NewestFirstPermutes(s: seq<FeedbackEntry>)
    ensures multiset(NewestFirst(s)) == multiset(s)
  {
    if s != [] {
      NewestFirstPermutes(s[1..]);
      assert s == [s[0]] + s[1..];
    }
  }

  /** Records sorted by ascending creation time, read back to front, are
      sorted newest first, strictly when no two share a time. */
  lemma NewestFirstSorted(s: seq<FeedbackEntry>)
    requires SortedBy(s, SubmittedAt)
    ensures DescendingBy(NewestFirst(s), SubmittedAt)
    ensures StrictlySortedBy(s, SubmittedAt) ==> forall i, j :: 0 <= i < j < |s| ==>
              NewestFirst(s)[i].createdAt > NewestFirst(s)[j].createdAt
  {
    var r := NewestFirst(s);
    forall i, j | 0 <= i < j < |r| ensures r[i] == s[|s| - 1 - i] && r[j] == s[|s| - 1 - j] {
    }
  }
}
