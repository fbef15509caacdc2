# Post store: drafts, publication and filtered search

This project models the core of a small Spring Boot blog API. It has two parts.

- `Post` is an entity with an id, content, and creation, update and publication
  times. It carries a draft flag. Leaving draft state stamps the publication
  time once. A published-only search predicate matches against `SearchParams`.
  Equality and hashing go by id.
- `PostService` is an in-memory store of posts. It is a map from id to post
  plus a counter that starts at 1. It creates drafts, publishes, deletes and
  looks up posts, lists the published and the draft posts, and runs a search
  with eight optional criteria.

The files:

- `wrappers.dfy` has the `Option` type. It stands for Java's `null`.
- `text.dfy` (module `Text`) has the string operations the filters use:
  - `toLowerCase`;
  - `String.contains`;
  - the token count of `split("\\s+")`. This is characterised exactly,
    including Java's boundary cases.
- `post.dfy` (module `Model`) has `Post` as a class whose setters update its
  fields in place. It also has `SearchParams` as a value type.
- `post_service.dfy` (module `Service`) has `PostService` as a class over a
  `map<int, Post>` and an id counter. The search is a loop over the stored ids.
  The loop is proved against the declarative filter `PassesFilters`.

The store invariant `PostService.Valid` holds that every post is stored under
its own id and that every stored id is below the next one to be issued. Every
operation preserves it. It is what makes lookups return the post with the
requested id, ids unique, and the two listings a partition of the store.

Time is an integer, and every read of the clock is an explicit `now`
parameter. The date parser of the search (`SimpleDateFormat("yyyy-MM-dd")`)
is a parameter `parse`, where `None` stands for a `ParseException`.

Where the documentation and the code differ, the model follows the code:

- The search's `toDate` bound is compared with the parsed instant. For a
  `yyyy-MM-dd` string that is the start of that day, so posts created later
  on that day fail the bound, although the parameter documentation says "on
  or before this date".
- `minWordCount` and `maxWordCount` are documented as character counts. The
  code counts the tokens of `split("\\s+")`. That count is 1 for empty
  content, and content with leading whitespace gains an empty first token.
- In `searchPostsWithFilters` (PostService.java:62-69), one exception handler
  covers both date parses. A `fromDate` that fails to parse therefore skips
  parsing `toDate`, and the search then runs with neither date bound.
- `publishPost` sets `publishedAt` to the current time after `setDraft(false)`
  has already stamped it. A publication time set earlier is therefore
  overwritten. `setDraft` alone never overwrites it.

## Model

| member | source | states |
|---|---|---|
| Text.ToLower | handson/src/main/java/com/example/handson/model/Post.java:200-201 | lower-casing keeps the length and folds each character separately |
| Text.ToLowerIdempotent | handson/src/main/java/com/example/handson/model/Post.java:200-203 | lower-casing an already lower-cased string changes nothing |
| Text.ContainsIgnoreCaseIgnoresCase | handson/src/main/java/com/example/handson/service/PostService.java:76 | the keyword test gives the same answer whether content or keyword is lower-cased beforehand or not |
| Text.ContainsIff | handson/src/main/java/com/example/handson/model/Post.java:203 | `contains` holds exactly when the keyword occurs in the content at some index |
| Text.ContainsEmptyAndSelf | handson/src/main/java/com/example/handson/model/Post.java:203 | every string contains the empty string and itself |
| Text.WordsAreWords | handson/src/main/java/com/example/handson/service/PostService.java:96 | the words of a text are non-empty and contain no whitespace |
| Text.SplitOnWhitespaceIsWords | handson/src/main/java/com/example/handson/service/PostService.java:96-100 | `split("\\s+")` returns `[""]` for empty text and nothing for blank text; otherwise it returns the words, with one extra empty first token when the text starts with whitespace |
| Text.WordCountIsWordsWithoutLeadingWhitespace | handson/src/main/java/com/example/handson/service/PostService.java:96-100 | for text that starts with a word, the token count is the number of words |
| Text.WordCountOfBlank | handson/src/main/java/com/example/handson/service/PostService.java:96-100 | text of whitespace only has token count 0 |
| Text.WordCountOfIndentedWord | handson/src/main/java/com/example/handson/service/PostService.java:96-100 | one whitespace character followed by one word has token count 2 |
| Text.WordsOfJoin | handson/src/main/java/com/example/handson/service/PostService.java:96 | words joined by single spaces split back into the same words |
| Text.WordCountOfJoin | handson/src/main/java/com/example/handson/service/PostService.java:96-100 | n words joined by single spaces have token count n |
| Text.WordCountQuirks | handson/src/main/java/com/example/handson/service/PostService.java:96-100 | the counts of `""`, `"   "` and `" hello"` are 1, 0 and 2 |
| Text.WordCountExample | handson/src/main/java/com/example/handson/service/PostService.java:96-100 | `"hello world foo"` has token count 3 |
| Model.StampSetOnce | handson/src/main/java/com/example/handson/model/Post.java:170-175 | once `publishedAt` is set, no sequence of `setDraft` calls changes it |
| Model.StampFromUnpublished | handson/src/main/java/com/example/handson/model/Post.java:170-175 | starting unpublished, `setDraft` calls set `publishedAt` iff one of them leaves draft state, and it holds the time of the first such call |
| Model.Post.constructor | handson/src/main/java/com/example/handson/model/Post.java:40-43 | a new post is a draft with only its creation time set |
| Model.Post.WithContent | handson/src/main/java/com/example/handson/model/Post.java:53-58 | a new post holds the content, is a draft, has its creation and update times set, and is unpublished with no id |
| Model.Post.SetId | handson/src/main/java/com/example/handson/model/Post.java:74-76 | sets the id and changes no other field |
| Model.Post.SetContent | handson/src/main/java/com/example/handson/model/Post.java:94-97 | sets the content and the update time, which never moves backwards under a clock that does not, and changes no other field |
| Model.Post.SetCreatedAt | handson/src/main/java/com/example/handson/model/Post.java:113-115 | sets the creation time and changes no other field |
| Model.Post.SetUpdatedAt | handson/src/main/java/com/example/handson/model/Post.java:131-133 | sets the update time and changes no other field |
| Model.Post.SetPublishedAt | handson/src/main/java/com/example/handson/model/Post.java:149-151 | sets the publication time and changes no other field |
| Model.Post.SetDraft | handson/src/main/java/com/example/handson/model/Post.java:170-175 | sets the flag; leaving draft state stamps `publishedAt` with `now` only when it was unset; returning to draft never clears it; id, content, creation and update times are kept |
| Model.Post.MatchesSearchCriteria | handson/src/main/java/com/example/handson/model/Post.java:186-221 | drafts and unpublished posts never match; with no parameters every published post matches; otherwise a match holds iff every given criterion holds (non-empty keyword contained ignoring case, published at or after the lower bound, at or before the upper bound) |
| Model.Post.Equals | handson/src/main/java/com/example/handson/model/Post.java:313-319 | two posts are equal iff their ids are equal, two absent ids included; nothing equals null |
| Model.Post.HashCode | handson/src/main/java/com/example/handson/model/Post.java:329-331 | the hash is 0 without an id and always a 32-bit signed value |
| Model.LongHashCode | handson/src/main/java/com/example/handson/model/Post.java:329-331 | `Long.hashCode` (exclusive or of the two 32-bit halves, read as signed) is a 32-bit signed value |
| Model.LongHashCodeOfSmallId | handson/src/main/java/com/example/handson/model/Post.java:329-331 | an id in [0, 2^31) hashes to itself |
| Model.EqualsConsistentWithHashCode | handson/src/main/java/com/example/handson/model/Post.java:313-331 | equal posts hash alike; equality is reflexive and symmetric |
| Model.EqualsOnAbsentIds | handson/src/main/java/com/example/handson/model/Post.java:318 | two id-less posts are equal and hash to 0; an id-less post never equals one with an id |
| Model.DraftsNeverMatch | handson/src/main/java/com/example/handson/model/Post.java:187-189 | a draft matches no search parameters at all |
| Service.ParseDateBounds | handson/src/main/java/com/example/handson/service/PostService.java:59-69 | the lower bound is set iff `fromDate` is non-empty and parses; the upper bound is set iff `toDate` is non-empty and parses and `fromDate` did not fail; each holds its parsed value |
| Service.UnparsableFromDateDropsBothBounds | handson/src/main/java/com/example/handson/service/PostService.java:62-69 | a `fromDate` that fails to parse leaves the search without any date bound |
| Service.EntryMatches | handson/src/main/java/com/example/handson/service/PostService.java:71-103 | the criterion-by-criterion `match` flag ends true iff the post passes every given filter |
| Service.PostService.constructor | handson/src/main/java/com/example/handson/service/PostService.java:26-38 | a new store is empty, its counter is 1, and the invariant holds |
| Service.PostService.CreateDraft | handson/src/main/java/com/example/handson/service/PostService.java:118-123 | stores a fresh draft under the counter's old value, an id not in use; the new post holds the content and the current time; the counter advances by one; the invariant is kept |
| Service.PostService.PublishPost | handson/src/main/java/com/example/handson/service/PostService.java:134-142 | returns the post iff the id is stored and was a draft; that post becomes published at `now` with its other fields kept; otherwise nothing changes; other posts never change |
| Service.PostService.DeletePost | handson/src/main/java/com/example/handson/service/PostService.java:150-152 | removes the id and reports whether it was stored; the invariant is kept |
| Service.PostService.GetPost | handson/src/main/java/com/example/handson/service/PostService.java:160-162 | returns the stored post iff the id is in the store |
| Service.PostService.GetAllPublishedPosts | handson/src/main/java/com/example/handson/service/PostService.java:171-175 | exactly the stored posts that are not drafts |
| Service.PostService.GetAllDraftPosts | handson/src/main/java/com/example/handson/service/PostService.java:184-188 | exactly the stored posts that are drafts |
| Service.PostService.SearchPostsWithFilters | handson/src/main/java/com/example/handson/service/PostService.java:56-107 | a stored post is in the result iff it passes every given criterion (after the date parse); the result holds only stored posts, each once; with no criteria it holds every stored post |
| Service.PostService.StoredPostsAreDistinct | handson/src/main/java/com/example/handson/service/PostService.java:118-123 | distinct ids never hold the same post object |
| Service.ListingsPartitionStore | handson/src/main/java/com/example/handson/service/PostService.java:171-188 | the two listings are disjoint, together hold every stored post, and their sizes add up to the number of stored ids |
| Service.GetPostFindsItsId | handson/src/main/java/com/example/handson/service/PostService.java:160-162 | a post found under an id carries that id |
| Service.IdBoundsAreStrict | handson/src/main/java/com/example/handson/service/PostService.java:79-86 | `beforeId` and `afterId` are strict bounds |
| Service.DateBoundsAreInclusive | handson/src/main/java/com/example/handson/service/PostService.java:87-94 | the date bounds are inclusive, and a post with no creation time fails them |
| Service.DraftFilterAgreesWithListings | handson/src/main/java/com/example/handson/service/PostService.java:73-74 | filtering on the draft flag alone keeps a stored post iff it appears in the listing of the same kind |
| Service.WordCountBoundsExample | handson/src/main/java/com/example/handson/service/PostService.java:95-102 | `"hello world foo"` passes word bounds 2 to 3 and fails a minimum of 4 |
| Service.KeywordSearchesAgree | handson/src/main/java/com/example/handson/model/Post.java:186-206 | for a post with a publication time, the published-only keyword match agrees with the filtered search limited to non-drafts with that keyword |
| Service.ListingScenario | handson/src/test/java/com/example/handson/service/PostServiceTest.java:180-226 | after four drafts with two of them published, each listing holds two posts in the expected state |
| Service.ListingsOfFour | handson/src/main/java/com/example/handson/service/PostService.java:171-188 | a store of two drafts and two published posts lists each pair in its own listing |
| Service.LifecycleScenario | handson/src/test/java/com/example/handson/service/PostServiceTest.java:64-133 | the first publish succeeds at `now`; publishing again and looking up after deletion find nothing; the ids issued are 1 and then 2, so a deleted id is not reused |

## Left out

- The HTTP controller, the Spring application start-up and `toString` are not part of this model.
- Getters are plain field reads, so the model reads the fields directly.
- `ConcurrentHashMap` and `AtomicLong` are modelled as a plain map and a plain counter. Concurrent callers are not modelled.
- The system clock is a `now` parameter. `new Post(content)` reads the clock twice, and the model uses one reading for both. `publishPost` reads it twice (in `setDraft` and in `new Date()`), and the model uses one `now` for both.
- `SimpleDateFormat` parsing, the default time zone and `Date.toInstant` are the `parse` parameter. Lenient parsing and which strings parse are not modelled.
- `Text.ToLower`: folds only the ASCII letters. Java's `toLowerCase` uses the default locale and full Unicode, and some of its folds change the length of a string.
- The listings are sets and the search result is a sequence in unspecified order. The model does not capture the `List` order, which follows the hash map's iteration order.
- `e.printStackTrace()` in the date-parse handler is output only.
- Service.PostService.CreateDraft: ids are unbounded integers. The wrap-around of the 64-bit counter after 2^63 − 1 drafts is not modelled.
- Model.Post.Equals: compares posts only. Java's `equals(Object)` also returns false for an object of another class, which has no counterpart here.
- A `null` id passed to `publishPost`, `deletePost` or `getPost` is not modelled. `ConcurrentHashMap` throws a `NullPointerException` for it, and ids here are plain integers.
- Service.PassesFilters: requires an id when an id bound is given. The code would throw a `NullPointerException` on an id-less post there, and the store invariant rules such posts out.
- The setters of `SearchParams` are value updates of the `SearchParams` datatype, so they have no members of their own.
