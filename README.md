# Name registry of the 3D name demo, in Dafny

The server of this demo keeps two MongoDB collections: `Name`, the names
visitors have typed, and `Feedback`, the star ratings and comments they left.
Four HTTP routes work on them:

- `GET /api/names` reads every name oldest first. It folds the list from the
  left and keeps an entry only when no entry kept so far has the same
  lower-cased name. The first, earliest, spelling of each name survives.
- `POST /api/names` looks for a stored name matching the posted one
  case-insensitively. It returns that entry and writes nothing, or it saves the
  name as given and returns the new entry.
- `POST /api/feedback` saves every submission, with no de-duplication.
- `GET /api/feedback` lists all feedback newest first.

The model holds the two collections as sequences in stored order, inside a
class `Server.Registry`. `Date.now` becomes a counter field `clock` that every
save advances. Nothing ties the clock to the stored times: records written by
other means may come in any order and carry any time, even one after the
clock. When every stored time is before the clock, the POST routes keep the
store in creation order. The two list routes sort by `createdAt` explicitly
(`Sorting.SortBy`, a stable insertion sort). When the stored order is already
ascending, the sort gives it back unchanged. Whatever the stored order, a
name the create route saves is in the list. The list de-duplication is a pure left fold (`Names.Fold`,
`Names.Dedup`) with lemmas about it. The POST routes are methods that append
to the sequences. The create lookup (`findOne`) has no sort, so it searches
the stored order.

Files:

- `text.dfy` (module `Text`): ASCII `toLowerCase`, the case folding of the
  regular-expression `i` option, and the PCRE match of an anchored pattern
  made of literal characters and `.`.
- `sorting.dfy` (module `Sorting`): sorting records by a numeric key, and the
  uniqueness of an ascending order when keys are distinct.
- `names.dfy` (module `Names`): name records, the `find` lookup, the
  de-duplicating fold, and its properties.
- `feedback.dfy` (module `Feedback`): feedback records and the newest-first
  listing.
- `registry.dfy` (module `Server`): the `Registry` class with the four routes,
  and the create lookup as the source writes it.
- `scenarios.dfy` (module `Scenarios`): small client programs for the promised
  behaviours: a case variant posted twice, listing order, a direct duplicate
  in the store, records with equal times, a store out of creation order, a
  store dated after the clock, and feedback posted twice.

## Model

| member | source | states |
|---|---|---|
| `Text.LowerChar` | server.js:76 | lower-casing one character turns an ASCII capital into its small letter, 32 code points up, and leaves every other character as it is |
| `Text.Lower` | server.js:76 | `toLowerCase` keeps the length, maps every ASCII capital to its small letter and leaves every other character as it is |
| `Text.AnchoredMatchCI` | server.js:95 | PCRE's `^name$` with the `i` option matches only a subject as long as the name, or one character longer and ending in a newline, since `$` also matches before a final newline |
| `Text.BodyMatchIffSameLower` | server.js:95 | a pattern of literal characters matches a whole subject under the `i` option exactly when both lower-case to the same string |
| `Text.AnchoredMatchIffSameLower` | server.js:95 | for a name without metacharacters, `^name$` with the `i` option matches a stored name exactly when both lower-case to the same string, or they do once a final newline is removed from the stored name |
| `Sorting.SortBy` | server.js:72 | the sort keeps exactly the stored records, as a multiset, in ascending key order |
| `Sorting.InsertSorted` | server.js:72 | inserting a record into a sorted sequence keeps it sorted |
| `Sorting.SortedPermutationUnique` | server.js:72 | two ascending orderings of the same records, one with distinct keys, are equal |
| `Sorting.SortSortedIsIdentity` | server.js:72 | sorting records already in ascending key order returns them unchanged, ties included |
| `Sorting.AppendAbove` | server.js:102-103 | appending a record whose key is above every stored key leaves every key below the next integer, and keeps a strictly ascending sequence so |
| `Names.Find` | server.js:76 | returns the first index whose lower-cased name equals the key, and nothing exactly when no entry has that key |
| `Names.Step` | server.js:76-80 | the reducer keeps the accumulator as a prefix and adds at most the current record, and only at the end; afterwards the current record's lower-cased name is present, and an accumulator free of case duplicates stays so |
| `Names.Fold` | server.js:75-81 | reducing from an accumulator keeps it as a prefix, adds at most one record per input, and keeps an accumulator free of case duplicates so |
| `Names.Dedup` | server.js:72-81 | the reduced list never holds two names equal after lower-casing, and it is no longer than the input |
| `Names.FoldSnoc` | server.js:75-81 | reducing over one more record is one more reducer step on the previous result |
| `Names.DedupTrace` | server.js:75-81 | every listed entry is the first occurrence of its lower-cased name in the input, the entries are taken in input order, and every input name is represented |
| `Names.DedupSubsequence` | server.js:75-81 | the list is a subsequence of the input: input records, in input order |
| `Names.DedupCovers` | server.js:76-79 | a lower-cased name appears in the list exactly when it appears in the input |
| `Names.DedupKeepsEarliest` | server.js:75-80 | for each input name the listed entry is the first input record with that lower-cased name; in an input sorted by `createdAt` no record with that name is older |
| `Names.FirstIsEarliest` | server.js:72-76 | in an input sorted by `createdAt`, no record with a given lower-cased name is older than the first one |
| `Names.DedupListsSoleHolder` | server.js:75-80 | a record that is the only input record with its lower-cased name is listed |
| `Names.DedupOfUnique` | server.js:75-81 | a list already free of case duplicates passes through the fold unchanged |
| `Names.DedupIdempotent` | server.js:75-81 | de-duplicating the list a second time gives the same list |
| `Names.DedupAppendNew` | server.js:76-78 | a record with a new lower-cased name, last in the input, is listed last |
| `Names.DedupAppendDuplicate` | server.js:76-80 | a record whose lower-cased name is already in the input does not change the list |
| `Names.DedupKeepsOrder` | server.js:72-81 | the fold of an input sorted by `createdAt` is sorted by `createdAt`, strictly when the input is |
| `Names.HasKeyPermutation` | server.js:72 | sorting neither adds nor removes a lower-cased name |
| `Feedback.NewestFirst` | server.js:130 | the descending listing of records in ascending order has the same length and holds the record at position `n-1-i` at position `i` |
| `Feedback.NewestFirstPermutes` | server.js:130 | the newest-first listing has exactly the stored records, as a multiset |
| `Feedback.NewestFirstSorted` | server.js:130 | records in ascending `createdAt` order, listed newest first, are in non-increasing `createdAt` order, strictly decreasing when the times are distinct |
| `Server.Registry.constructor` | server.js:45-61 | an empty database: no names, no feedback, the clock at its start |
| `Server.Registry.Open` | server.js:45-61 | a database that already holds records in any order and with any times, possibly with case duplicates written by other means, and a clock at any value |
| `Server.Registry.ListNames` | server.js:69-83 | returns the fold of the names sorted by `createdAt`: no case duplicates, oldest first, a lower-cased name listed exactly when it is stored; for a store already in ascending order it is the fold of the store itself, strictly ascending when the store is |
| `Server.Registry.CreateName` | server.js:90-104 | with a case-insensitive match it returns the first matching record in stored order and changes nothing; otherwise it appends exactly one record with the name as posted and the current time and returns it; feedback is untouched; either way a later lookup of that name finds the returned record, and so does the fold of the store; a newly saved record is in the sorted, de-duplicated list whatever the stored order; a store free of case duplicates stays so; when every stored time is before the clock, that stays so and strict creation order is kept |
| `Server.Registry.SubmitFeedback` | server.js:112-121 | appends exactly one record with the submitted fields and the current time, whatever is already stored; names are untouched; when every logged time is before the clock, that stays so and strict creation order is kept |
| `Server.Registry.ListFeedback` | server.js:128-131 | returns every stored feedback record, as a multiset, in non-increasing `createdAt`; for a log already in ascending order that is the log read back to front |
| `Server.FindAsWritten` | server.js:94-96 | the lookup as written fails, so the route replies 500, exactly when the name holds U+0000, U+2028 or U+2029; otherwise it answers with the first stored record that the unescaped PCRE pattern `^name$` with the `i` option matches, treating `.` as a wildcard, or with nothing when no record matches |
| `Server.FirstMatch` | server.js:94-96 | the first stored record that the pattern `^name$` with the `i` option matches, with no earlier match, or nothing exactly when no record matches |
| `Server.FindAsWrittenAgrees` | server.js:94-96 | for a name without metacharacters and without U+0000, U+2028 or U+2029, and a store where no name ends in a newline, the lookup as written answers and finds the same record as case-insensitive equality |
| `Server.UnqueryableNameFails` | server.js:94-96 | posting "a" plus U+0000, or "a" plus U+2028, against a store holding the capitalised name: the lookup as written fails, while case-insensitive equality finds the stored record |
| `Server.WildcardNameFindsOtherName` | server.js:95 | posting "." against a store holding "x" finds "x" as written, while case-insensitive equality finds nothing |
| `Server.FinalNewlineFindsOtherName` | server.js:95 | posting "alice" against a store holding "Alice" plus a final newline finds that record as written, while case-insensitive equality finds nothing |
| `Server.Registry.Save` | server.js:102-103 | appends exactly one record with the posted name and the current time and advances the clock, feedback untouched; when the name was not stored, the sorted, de-duplicated list shows the new record; when every stored time is before the clock, that stays so and strict creation order is kept |
| `Server.NewNameListed` | server.js:72-103 | a record saved into a store that holds no record with its lower-cased name is in the sorted, de-duplicated list, whatever the stored order |
| `Server.FoldShowsFound` | server.js:76-80 | the record a lookup finds in the store is the one the fold of the store shows for that name |
| `Server.FindAppended` | server.js:102-103 | after a new name is saved, a lookup of it finds the new record at the end |
| `Server.AppendNewKeepsUnique` | server.js:94-103 | appending a record whose lower-cased name is absent keeps the store free of case duplicates |
| `Scenarios.CreateTwiceCaseVariant` | server.js:94-104 | posting "Alice" then "alice" stores one record, and both calls return it |
| `Scenarios.ListInCreationOrder` | server.js:72-81 | after creating "B" then "A", the list is B then A, oldest first |
| `Scenarios.ListDropsDirectDuplicate` | server.js:72-81 | with "Bob" and then "BOB" in the store, the list holds only the older "Bob" |
| `Scenarios.ListTieKeepsStoredFirst` | server.js:72-81 | with "Bob" and then "BOB" stored at the same time, the list holds only "Bob", the one stored first |
| `Scenarios.FutureDatedStore` | server.js:72-104 | with "Zed" stored at a time after the clock, posting "Amy" saves it at an earlier time, and the list shows "Amy" before "Zed" |
| `Scenarios.OutOfOrderList` | server.js:72-81 | with a newer "Bob" stored before an older "BOB", the list holds only the older "BOB" |
| `Scenarios.OutOfOrderCreate` | server.js:94-99 | on that same store, posting "bob" returns the newer "Bob", the first match in stored order |
| `Scenarios.SortSwapsTwo` | server.js:72 | two records stored newest first come out of the sort swapped |
| `Scenarios.SameNameTwice` | server.js:76-80 | of two records with one lower-cased name the fold keeps only the first |
| `Scenarios.FeedbackTwice` | server.js:114-121 | posting the same feedback twice stores two distinct records |

## Left out

- MongoDB connection, retry timer and reconnect handlers (server.js:19-43): I/O and timers.
- Express, CORS and static middleware, the health route, the catch-all `index.html` route and `listen` (server.js:9-13, 64-66, 139-147): HTTP plumbing.
- Storage failures and the HTTP 500 replies (server.js:84-87, 105-108, 122-125, 133-135): the model has no failing store.
- `Server.Registry.CreateName`: does not model the create route's failures. A name that is not a valid pattern once put between `^` and `$` (one containing `(`, say) makes the source throw and reply 500, and so does a name containing U+0000, U+2028 or U+2029: the database refuses U+0000 in a pattern, and the pattern source writes the other two as `\u` escapes, which PCRE refuses. The model stores all of these. `Server.FindAsWritten` models the failure for those three characters.
- `Server.Registry.CreateName`: does not model the source's regular-expression lookup. It uses the corrected case-insensitive equality (see Findings), so it stores "alice" beside a stored "Alice" plus a final newline, where the source returns the stored record.
- `Server.FindAsWritten`: models the as-written lookup for names whose only metacharacter is `.`, not for the other metacharacters, and takes PCRE's default newline convention, a line feed.
- `Server.FindAsWrittenAgrees`: holds only for stores where no name ends in a newline, and for names the query can carry; `Server.FinalNewlineFindsOtherName` and `Server.UnqueryableNameFails` show the other cases.
- The race between `findOne` and `save` (server.js:94-103): two concurrent posts of the same new name can both insert. The model is sequential, so every create runs to completion before the next one.
- `Date.now` (server.js:48, 57): replaced by a counter that every save advances. The counter starts at any value and is not tied to stored times, but it never steps back while the server runs, and two records this server saves never share a time.
- `Sorting.SortBy`: the sort is stable, so records with equal `createdAt` keep their stored order. MongoDB leaves the order of such ties unspecified, so the model fixes one of the orders the database may return.
- Case folding outside ASCII: `toLowerCase` and the `i` option differ on some non-ASCII characters; both are modelled on ASCII only.
- Request bodies that lack a field (JavaScript `undefined`) and numbers that are not integers as `rating`: names and feedback fields are strings and the rating an integer.
- The client in main.js: rendering, page switching, fetch wrappers, and its repeat of the duplicate check and sort.

## Findings

| source | as written | input that shows it | evidently intended | confidence | as-written member | corrected member |
|---|---|---|---|---|---|---|
| server.js:94-96 | the posted name is put into `new RegExp(`^${name}$`, 'i')` without escaping, so its metacharacters act as regular-expression syntax | posting "." with only "x" stored: the pattern `^.$` matches "x", the route returns the "x" record and never stores "." | a case-insensitive equality lookup, as the comment on line 93 says | high; not executed | `Server.WildcardNameFindsOtherName` | `Server.Registry.CreateName` |
| server.js:95 | the pattern `^${name}$` is anchored with `$`, which in PCRE also matches just before a newline that ends the subject | posting "alice" with only "Alice" plus a final newline stored: the pattern matches it, the route returns that record and never stores "alice" | a case-insensitive equality lookup, as the comment on line 93 says | medium; not executed | `Server.FinalNewlineFindsOtherName` | `Server.Registry.CreateName` |
