/**
 * The in-memory post store: a map from id to post plus an id counter that
 * starts at 1, the draft/publish/delete/lookup operations on it, the two
 * listings, and the eight-criterion filtered search.
 */
module Service {

  import opened Wrappers
  import opened Text
  import opened Model

  /** The criteria of the filtered search once its date strings are parsed; every one is optional. */
  datatype Criteria = Criteria(
    keyword: Option<string>,
    beforeId: Option<int>,
    afterId: Option<int>,
    fromD: Option<int>,
    toD: Option<int>,
    isDraft: Option<bool>,
    minWordCount: Option<int>,
    maxWordCount: Option<int>)

  const NoCriteria := Criteria(None, None, None, None, None, None, None, None)

  /** A date string is parsed only when it is non-null and non-empty. */
  predicate DateGiven(date: Option<string>)
  {
    date.Some? && date.value != ""
  }

  /**
   * The two date bounds left by the parsing block of the search. `parse` stands
   * for `SimpleDateFormat("yyyy-MM-dd").parse`, with `None` where it throws.
   * Both parses share one handler, so a `fromDate` that fails to parse means
   * `toDate` is never parsed; a failing `toDate` leaves `fromDate`'s bound set.
   */
  function ParseDateBounds(fromDate: Option<string>, toDate: Option<string>, parse: string -> Option<int>)
    : (bounds: (Option<int>, Option<int>))
    ensures bounds.0.Some? <==> DateGiven(fromDate) && parse(fromDate.value).Some?
    ensures bounds.0.Some? ==> bounds.0 == parse(fromDate.value)
    ensures bounds.1.Some? <==>
      && DateGiven(toDate) && parse(toDate.value).Some?
      && !(DateGiven(fromDate) && parse(fromDate.value).None?)
    ensures bounds.1.Some? ==> bounds.1 == parse(toDate.value)
  {
    var fromD := if DateGiven(fromDate) then parse(fromDate.value) else None;
    if DateGiven(fromDate) && fromD.None? then (None, None)
    else (fromD, if DateGiven(toDate) then parse(toDate.value) else None)
  }

  /** When `fromDate` cannot be parsed the search applies no date bound at all. */
  lemma UnparsableFromDateDropsBothBounds(fromDate: Option<string>, toDate: Option<string>, parse: string -> Option<int>)
    requires DateGiven(fromDate) && parse(fromDate.value).None?
    ensures ParseDateBounds(fromDate, toDate, parse) == (None, None)
  {
  }

  /** The criteria of `searchPostsWithFilters`, with its date strings parsed. */
  function SearchCriteria(keyword: Option<string>, beforeId: Option<int>, afterId: Option<int>,
                          fromDate: Option<string>, toDate: Option<string>, isDraft: Option<bool>,
                          minWordCount: Option<int>, maxWordCount: Option<int>,
                          parse: string -> Option<int>): Criteria
  {
    var bounds := ParseDateBounds(fromDate, toDate, parse);
    Criteria(keyword, beforeId, afterId, bounds.0, bounds.1, isDraft, minWordCount, maxWordCount)
  }

  /** The id bounds read the post's id, so they need one (a stored post always has one). */
  predicate HasIdIfNeeded(p: Post, c: Criteria)
    reads p
  {
    c.beforeId.Some? || c.afterId.Some? ==> p.id.Some?
  }

  /** A post passes the filtered search when every criterion that is given holds of it. */
  predicate PassesFilters(p: Post, c: Criteria)
    reads p
    requires HasIdIfNeeded(p, c)
  {
    && (c.isDraft.Some? ==> p.isDraft == c.isDraft.value)
    && (KeywordGiven(c.keyword) ==> p.content.Some? && ContainsIgnoreCase(p.content.value, c.keyword.value))
    && (c.beforeId.Some? ==> p.id.value < c.beforeId.value)
    && (c.afterId.Some? ==> p.id.value > c.afterId.value)
    && (c.fromD.Some? ==> p.createdAt.Some? && p.createdAt.value >= c.fromD.value)
    && (c.toD.Some? ==> p.createdAt.Some? && p.createdAt.value <= c.toD.value)
    && (c.minWordCount.Some? ==> p.content.Some? && WordCount(p.content.value) >= c.minWordCount.value)
    && (c.maxWordCount.Some? ==> p.content.Some? && WordCount(p.content.value) <= c.maxWordCount.value)
  }

  /** The `match` flag of one loop iteration of the filtered search, criterion by criterion. */
  method EntryMatches(p: Post, c: Criteria) returns (matched: bool)
    requires HasIdIfNeeded(p, c)
    ensures matched == PassesFilters(p, c)
  {
    matched := true;
    if c.isDraft.Some? && p.isDraft != c.isDraft.value {
      matched := false;
    }
    if matched && KeywordGiven(c.keyword) {
      if p.content.None? || !ContainsIgnoreCase(p.content.value, c.keyword.value) {
        matched := false;
      }
    }
    if matched && c.beforeId.Some? {
      if p.id.value >= c.beforeId.value {
        matched := false;
      }
    }
    if matched && c.afterId.Some? {
      if p.id.value <= c.afterId.value {
        matched := false;
      }
    }
    if matched && c.fromD.Some? {
      if p.createdAt.None? || p.createdAt.value < c.fromD.value {
        matched := false;
      }
    }
    if matched && c.toD.Some? {
      if p.createdAt.None? || p.createdAt.value > c.toD.value {
        matched := false;
      }
    }
    if matched && c.minWordCount.Some? {
      if p.content.None? || WordCount(p.content.value) < c.minWordCount.value {
        matched := false;
      }
    }
    if matched && c.maxWordCount.Some? {
      if p.content.None? || WordCount(p.content.value) > c.maxWordCount.value {
        matched := false;
      }
    }
  }

  class PostService {
    var posts: map<int, Post>
    var idGenerator: int

    /** Every post is stored under its own id, and every id is below the next one to be issued. */
    ghost predicate Valid()
      reads this, posts.Values
    {
      && 1 <= idGenerator
      && forall k :: k in posts ==> 1 <= k < idGenerator && posts[k].id == Some(k)
    }

    constructor ()
      ensures Valid() && posts == map[] && idGenerator == 1
    {
      posts := map[];
      idGenerator := 1;
    }

    /** Stores a new draft under the next id; ids are never handed out twice. */
    method CreateDraft(content: Option<string>, now: int) returns (post: Post)
      requires Valid()
      modifies this
      ensures Valid() && fresh(post)
      ensures post.id == Some(old(idGenerator)) && post.content == content && post.isDraft
      ensures post.createdAt == Some(now) && post.updatedAt == Some(now) && post.publishedAt.None?
      ensures old(idGenerator) !in old(posts)
      ensures posts == old(posts)[old(idGenerator) := post]
      ensures idGenerator == old(idGenerator) + 1
    {
      post := new Post.WithContent(content, now);
      var id := idGenerator;
      idGenerator := idGenerator + 1;
      post.SetId(Some(id));
      posts := posts[id := post];
    }

    /**
     * Publishes a stored draft: clears the flag and stamps `publishedAt` with
     * `now`, whatever it held before. A missing id and an already published post
     * both give `None` and change nothing.
     */
    method PublishPost(id: int, now: int) returns (r: Option<Post>)
      requires Valid()
      modifies posts.Values
      ensures Valid() && posts == old(posts) && idGenerator == old(idGenerator)
      ensures r.Some? <==> id in posts && old(posts[id].isDraft)
      ensures r.Some? ==> r.value == posts[id] && !r.value.isDraft && r.value.publishedAt == Some(now)
      ensures r.Some? ==> r.value.id == old(r.value.id) && r.value.content == old(r.value.content)
      ensures r.Some? ==> r.value.createdAt == old(r.value.createdAt) && r.value.updatedAt == old(r.value.updatedAt)
      ensures forall k :: k in posts && (k != id || r.None?) ==> unchanged(posts[k])
    {
      if id in posts && posts[id].isDraft {
        var post := posts[id];
        post.SetDraft(false, now);
        post.SetPublishedAt(Some(now));
        return Some(post);
      }
      return None;
    }

    /** Removes the post stored under `id`, telling whether there was one. */
    method DeletePost(id: int) returns (removed: bool)
      requires Valid()
      modifies this
      ensures Valid()
      ensures removed <==> id in old(posts)
      ensures posts == old(posts) - {id} && idGenerator == old(idGenerator)
    {
      removed := id in posts;
      posts := posts - {id};
    }

    function GetPost(id: int): (r: Option<Post>)
      reads this
      ensures r.Some? <==> id in posts
      ensures r.Some? ==> r.value == posts[id]
    {
      if id in posts then Some(posts[id]) else None
    }

    function GetAllPublishedPosts(): (r: set<Post>)
      reads this, posts.Values
      ensures r <= posts.Values
      ensures forall p :: p in posts.Values ==> (p in r <==> !p.isDraft)
    {
      set p | p in posts.Values && !p.isDraft
    }

    function GetAllDraftPosts(): (r: set<Post>)
      reads this, posts.Values
      ensures r <= posts.Values
      ensures forall p :: p in posts.Values ==> (p in r <==> p.isDraft)
    {
      set p | p in posts.Values && p.isDraft
    }

    /**
     * `searchPostsWithFilters`: visits every stored post once, in no particular
     * order, and keeps those that pass every given criterion.
     */
    method SearchPostsWithFilters(keyword: Option<string>, beforeId: Option<int>, afterId: Option<int>,
                                  fromDate: Option<string>, toDate: Option<string>, isDraft: Option<bool>,
                                  minWordCount: Option<int>, maxWordCount: Option<int>,
                                  parse: string -> Option<int>)
      returns (result: seq<Post>)
      requires Valid()
      ensures forall p :: p in result ==> p in posts.Values
      ensures forall k :: k in posts ==>
        (posts[k] in result <==>
         PassesFilters(posts[k], SearchCriteria(keyword, beforeId, afterId, fromDate, toDate, isDraft,
                                                minWordCount, maxWordCount, parse)))
      ensures forall i, j :: 0 <= i < j < |result| ==> result[i] != result[j]
      ensures keyword.None? && beforeId.None? && afterId.None? && fromDate.None? && toDate.None? &&
              isDraft.None? && minWordCount.None? && maxWordCount.None? ==>
              forall k :: k in posts ==> posts[k] in result
    {
      var bounds := ParseDateBounds(fromDate, toDate, parse);
      var c := Criteria(keyword, beforeId, afterId, bounds.0, bounds.1, isDraft, minWordCount, maxWordCount);
      result := [];
      var remaining := posts.Keys;
      while remaining != {}
        invariant remaining <= posts.Keys
        invariant forall p :: p in result ==> p in posts.Values
        invariant forall k :: k in posts && k !in remaining ==> (posts[k] in result <==> PassesFilters(posts[k], c))
        invariant forall k :: k in remaining ==> posts[k] !in result
        invariant forall i, j :: 0 <= i < j < |result| ==> result[i] != result[j]
        decreases remaining
      {
        NonEmptyHasElement(remaining);
        var k :| k in remaining;
        remaining := remaining - {k};
        var p := posts[k];
        var matched := EntryMatches(p, c);
        if matched {
          result := result + [p];
        }
      }
    }

    /** Distinct ids hold distinct posts. */
    lemma StoredPostsAreDistinct()
      requires Valid()
      ensures forall j, k :: j in posts && k in posts && j != k ==> posts[j] != posts[k]
    {
      forall j, k | j in posts && k in posts && posts[j] == posts[k] ensures j == k {
        assert posts[j].id == Some(j) && posts[k].id == Some(k);
      }
    }
  }

  /** A non-empty set of ids has a member; this lets the search loop pick its next id. */
  lemma NonEmptyHasElement(s: set<int>)
    requires s != {}
    ensures exists x :: x in s
  {
    if forall x :: x !in s {
      assert false;
    }
  }

  /** A map whose values are pairwise distinct has as many values as keys. */
  lemma {:induction false} InjectiveValuesCount<K, V>(m: map<K, V>)
    requires forall j, k :: j in m && k in m && j != k ==> m[j] != m[k]
    ensures |m.Values| == |m|
    decreases |m|
  {
    if |m| > 0 {
      var k :| k in m;
      var rest := m - {k};
      InjectiveValuesCount(rest);
      forall v | v in m.Values ensures v in rest.Values + {m[k]} {
        var j :| j in m && m[j] == v;
        if j != k {
          assert j in rest && rest[j] == v;
        }
      }
      forall v | v in rest.Values ensures v in m.Values {
        var j :| j in rest && rest[j] == v;
        assert j in m && m[j] == v;
      }
      assert m[k] !in rest.Values by {
        forall j | j in rest ensures rest[j] != m[k] {
          assert j in m && j != k;
        }
      }
      assert m.Values == rest.Values + {m[k]};
    }
  }

  /** The published and draft listings split the store, and between them they hold one entry per id. */
  lemma ListingsPartitionStore(s: PostService)
    requires s.Valid()
    ensures s.GetAllPublishedPosts() !! s.GetAllDraftPosts()
    ensures s.GetAllPublishedPosts() + s.GetAllDraftPosts() == s.posts.Values
    ensures |s.GetAllPublishedPosts()| + |s.GetAllDraftPosts()| == |s.posts|
  {
    forall j, k | j in s.posts && k in s.posts && j != k ensures s.posts[j] != s.posts[k] {
      assert s.posts[j].id == Some(j) && s.posts[k].id == Some(k);
    }
    InjectiveValuesCount(s.posts);
    assert s.GetAllPublishedPosts() + s.GetAllDraftPosts() == s.posts.Values;
  }

  /** A stored post is found under its own id. */
  lemma GetPostFindsItsId(s: PostService, id: int)
    requires s.Valid()
    ensures s.GetPost(id).Some? ==> s.GetPost(id).value.id == Some(id)
  {
  }

  /** The id bounds are strict: `afterId = n` drops id n and keeps id n + 1, `beforeId = n` the reverse. */
  lemma IdBoundsAreStrict(p: Post, n: int)
    requires p.id.Some?
    ensures PassesFilters(p, NoCriteria.(afterId := Some(n))) <==> p.id.value > n
    ensures PassesFilters(p, NoCriteria.(beforeId := Some(n))) <==> p.id.value < n
  {
  }

  /**
   * The date bounds are inclusive and compare the creation time with the parsed
   * instant itself; a post without a creation time fails either bound.
   */
  lemma DateBoundsAreInclusive(p: Post, d: int)
    ensures PassesFilters(p, NoCriteria.(fromD := Some(d))) <==> p.createdAt.Some? && p.createdAt.value >= d
    ensures PassesFilters(p, NoCriteria.(toD := Some(d))) <==> p.createdAt.Some? && p.createdAt.value <= d
  {
  }

  /** Filtering on the draft flag alone selects exactly the stored posts of the matching listing. */
  lemma DraftFilterAgreesWithListings(s: PostService, p: Post)
    requires p in s.posts.Values
    ensures PassesFilters(p, NoCriteria.(isDraft := Some(false))) <==> p in s.GetAllPublishedPosts()
    ensures PassesFilters(p, NoCriteria.(isDraft := Some(true))) <==> p in s.GetAllDraftPosts()
  {
  }

  /** "hello world foo" has three words: it passes bounds 2 to 3 and fails a minimum of 4. */
  lemma WordCountBoundsExample(p: Post)
    requires p.content == Some("hello world foo")
    ensures PassesFilters(p, NoCriteria.(minWordCount := Some(2), maxWordCount := Some(3)))
    ensures !PassesFilters(p, NoCriteria.(minWordCount := Some(4)))
  {
    WordCountExample();
  }

  /**
   * For a post that carries a publication time, a keyword search through the
   * published-only predicate agrees with the filtered search restricted to
   * non-drafts with the same keyword.
   */
  lemma KeywordSearchesAgree(p: Post, keyword: Option<string>)
    requires p.publishedAt.Some?
    ensures p.MatchesSearchCriteria(Some(SearchParams(keyword, None, None))) <==>
            PassesFilters(p, NoCriteria.(keyword := keyword, isDraft := Some(false)))
  {
  }

  /** Four drafts, two of them published: each listing holds two posts, in the expected state. */
  method ListingScenario(now: int) returns (published: set<Post>, drafts: set<Post>)
    ensures |published| == 2 && |drafts| == 2
    ensures forall p :: p in published ==> !p.isDraft && p.publishedAt.Some?
    ensures forall p :: p in drafts ==> p.isDraft && p.publishedAt.None?
  {
    var s := new PostService();
    var d1 := s.CreateDraft(Some("Draft 1"), now);
    var d2 := s.CreateDraft(Some("Draft 2"), now);
    var p1 := s.CreateDraft(Some("Published 1"), now);
    var p2 := s.CreateDraft(Some("Published 2"), now);
    assert s.posts == map[1 := d1, 2 := d2, 3 := p1, 4 := p2];
    var r1 := s.PublishPost(3, now);
    var r2 := s.PublishPost(4, now);
    assert s.posts.Values == {d1, d2, p1, p2};
    published := s.GetAllPublishedPosts();
    drafts := s.GetAllDraftPosts();
    ListingsOfFour(s, d1, d2, p1, p2);
  }

  /** A store holding two drafts and two published posts lists each pair in its own listing. */
  lemma ListingsOfFour(s: PostService, d1: Post, d2: Post, p1: Post, p2: Post)
    requires s.posts.Values == {d1, d2, p1, p2}
    requires d1 != d2 && p1 != p2
    requires d1.isDraft && d2.isDraft && !p1.isDraft && !p2.isDraft
    ensures s.GetAllPublishedPosts() == {p1, p2} && s.GetAllDraftPosts() == {d1, d2}
  {
  }

  /**
   * Create, publish, publish again, delete, create: the first publish succeeds,
   * the second and the lookup after deletion find nothing, and the deleted id
   * is not issued again.
   */
  method LifecycleScenario(content: string, now: int)
    returns (published: Option<Post>, again: Option<Post>, afterDelete: Option<Post>, firstId: int, secondId: int)
    ensures published.Some? && !published.value.isDraft && published.value.publishedAt == Some(now)
    ensures again.None? && afterDelete.None?
    ensures firstId == 1 && secondId == 2
  {
    var s := new PostService();
    var post := s.CreateDraft(Some(content), now);
    firstId := post.id.value;
    published := s.PublishPost(firstId, now);
    again := s.PublishPost(firstId, now);
    var removed := s.DeletePost(firstId);
    afterDelete := s.GetPost(firstId);
    var next := s.CreateDraft(Some(content), now);
    secondId := next.id.value;
  }
}
