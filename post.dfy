/**
 * The post entity: a draft/publish state machine over optional fields, its
 * published-only search predicate, and id-based equality and hashing.
 * Timestamps are integers; every read of the clock is an explicit `now`.
 */
module Model {

  import opened Wrappers
  import opened Text

  /** The search criteria used against published posts only; every field is optional. */
  datatype SearchParams = SearchParams(
    contentKeyword: Option<string>,
    publishedAfter: Option<int>,
    publishedBefore: Option<int>)

  /** The value of `publishedAt` after `setDraft(draft)` at time `now`. */
  function PublishStamp(publishedAt: Option<int>, draft: bool, now: int): Option<int>
  {
    if !draft && publishedAt.None? then Some(now) else publishedAt
  }

  /** `publishedAt` after a sequence of `setDraft(draft)` calls, each with the time it was made. */
  function StampAfter(publishedAt: Option<int>, calls: seq<(bool, int)>): Option<int>
    decreases |calls|
  {
    if calls == [] then publishedAt
    else StampAfter(PublishStamp(publishedAt, calls[0].0, calls[0].1), calls[1..])
  }

  /** The first call that leaves draft state, if any. */
  predicate IsFirstUndraft(calls: seq<(bool, int)>, i: int)
  {
    0 <= i < |calls| && !calls[i].0 && forall j :: 0 <= j < i ==> calls[j].0
  }

  /** Once set, `publishedAt` survives every later `setDraft`, whichever way it goes. */
  lemma {:induction false} StampSetOnce(publishedAt: Option<int>, calls: seq<(bool, int)>)
    requires publishedAt.Some?
    ensures StampAfter(publishedAt, calls) == publishedAt
    decreases |calls|
  {
    if calls != [] {
      StampSetOnce(publishedAt, calls[1..]);
    }
  }

  /**
   * From an unpublished post, `publishedAt` is set exactly when some call left
   * draft state, and it holds the time of the first such call.
   */
  lemma {:induction false} StampFromUnpublished(calls: seq<(bool, int)>)
    ensures StampAfter(None, calls).Some? <==> exists i :: 0 <= i < |calls| && !calls[i].0
    ensures forall i :: IsFirstUndraft(calls, i) ==> StampAfter(None, calls) == Some(calls[i].1)
    decreases |calls|
  {
    if calls != [] {
      if !calls[0].0 {
        StampSetOnce(Some(calls[0].1), calls[1..]);
      } else {
        var tail := calls[1..];
        StampFromUnpublished(tail);
        forall i | 0 <= i < |tail| ensures tail[i] == calls[i + 1] { }
        forall i | IsFirstUndraft(calls, i) ensures IsFirstUndraft(tail, i - 1) {
          forall j | 0 <= j < i - 1 ensures tail[j].0 {
            assert calls[j + 1].0;
          }
        }
        if exists i :: 0 <= i < |calls| && !calls[i].0 {
          var i :| 0 <= i < |calls| && !calls[i].0;
          assert !tail[i - 1].0;
        }
      }
    }
  }

  class Post {
    var id: Option<int>
    var content: Option<string>
    var createdAt: Option<int>
    var updatedAt: Option<int>
    var publishedAt: Option<int>
    var isDraft: bool

    /** `new Post()`: a draft with only its creation time set. */
    constructor (now: int)
      ensures id == None && content == None
      ensures createdAt == Some(now) && updatedAt == None && publishedAt == None
      ensures isDraft
    {
      id := None;
      content := None;
      createdAt := Some(now);
      updatedAt := None;
      publishedAt := None;
      isDraft := true;
    }

    /** `new Post(content)`: a draft holding `content`, created and updated now. */
    constructor WithContent(content: Option<string>, now: int)
      ensures id == None && this.content == content
      ensures createdAt == Some(now) && updatedAt == Some(now) && publishedAt == None
      ensures isDraft
    {
      id := None;
      this.content := content;
      createdAt := Some(now);
      updatedAt := Some(now);
      publishedAt := None;
      isDraft := true;
    }

    method SetId(id: Option<int>)
      modifies this
      ensures this.id == id
      ensures content == old(content) && createdAt == old(createdAt) && updatedAt == old(updatedAt)
      ensures publishedAt == old(publishedAt) && isDraft == old(isDraft)
    {
      this.id := id;
    }

    /** Replaces the content and refreshes `updatedAt`, even when the content is unchanged. */
    method SetContent(content: Option<string>, now: int)
      modifies this
      ensures this.content == content && updatedAt == Some(now)
      ensures old(updatedAt).Some? && old(updatedAt).value <= now ==> old(updatedAt).value <= updatedAt.value
      ensures id == old(id) && createdAt == old(createdAt)
      ensures publishedAt == old(publishedAt) && isDraft == old(isDraft)
    {
      this.content := content;
      updatedAt := Some(now);
    }

    method SetCreatedAt(createdAt: Option<int>)
      modifies this
      ensures this.createdAt == createdAt
      ensures id == old(id) && content == old(content) && updatedAt == old(updatedAt)
      ensures publishedAt == old(publishedAt) && isDraft == old(isDraft)
    {
      this.createdAt := createdAt;
    }

    method SetUpdatedAt(updatedAt: Option<int>)
      modifies this
      ensures this.updatedAt == updatedAt
      ensures id == old(id) && content == old(content) && createdAt == old(createdAt)
      ensures publishedAt == old(publishedAt) && isDraft == old(isDraft)
    {
      this.updatedAt := updatedAt;
    }

    method SetPublishedAt(publishedAt: Option<int>)
      modifies this
      ensures this.publishedAt == publishedAt
      ensures id == old(id) && content == old(content) && createdAt == old(createdAt)
      ensures updatedAt == old(updatedAt) && isDraft == old(isDraft)
    {
      this.publishedAt := publishedAt;
    }

    /**
     * Sets the draft flag. Leaving draft state stamps `publishedAt` with `now`
     * only when it is unset; returning to draft state never clears it.
     */
    method SetDraft(draft: bool, now: int)
      modifies this
      ensures isDraft == draft
      ensures publishedAt == PublishStamp(old(publishedAt), draft, now)
      ensures !draft && old(publishedAt).None? ==> publishedAt == Some(now)
      ensures draft || old(publishedAt).Some? ==> publishedAt == old(publishedAt)
      ensures id == old(id) && content == old(content)
      ensures createdAt == old(createdAt) && updatedAt == old(updatedAt)
    {
      isDraft := draft;
      if !draft && publishedAt.None? {
        publishedAt := Some(now);
      }
    }

    /**
     * `matchesSearchCriteria`: drafts and posts never published match nothing;
     * otherwise every criterion that is given must hold.
     */
    predicate MatchesSearchCriteria(params: Option<SearchParams>)
      reads this
      ensures isDraft || publishedAt.None? ==> !MatchesSearchCriteria(params)
      ensures !isDraft && publishedAt.Some? && params.None? ==> MatchesSearchCriteria(params)
      ensures MatchesSearchCriteria(params) <==>
        && !isDraft && publishedAt.Some?
        && (params.Some? ==>
          && (KeywordGiven(params.value.contentKeyword) ==>
                content.Some? && ContainsIgnoreCase(content.value, params.value.contentKeyword.value))
          && (params.value.publishedAfter.Some? ==> publishedAt.value >= params.value.publishedAfter.value)
          && (params.value.publishedBefore.Some? ==> publishedAt.value <= params.value.publishedBefore.value))
    {
      if isDraft || publishedAt.None? then false
      else if params.None? then true
      else
        var p := params.value;
        if KeywordGiven(p.contentKeyword) && (content.None? || !ContainsIgnoreCase(content.value, p.contentKeyword.value)) then false
        else if p.publishedAfter.Some? && publishedAt.value < p.publishedAfter.value then false
        else if p.publishedBefore.Some? && publishedAt.value > p.publishedBefore.value then false
        else true
    }

    /** `equals`: the same object, or another post with the same (possibly absent) id. */
    predicate Equals(o: Post?)
      reads this, o
      ensures Equals(o) <==> o != null && id == o.id
    {
      if this == o then true
      else if o == null then false
      else if id.Some? then o.id.Some? && id.value == o.id.value
      else o.id.None?
    }

    /** `hashCode`: the id's `Long.hashCode`, or 0 without an id. */
    function HashCode(): (h: int)
      reads this
      ensures id.None? ==> h == 0
      ensures -0x8000_0000 <= h < 0x8000_0000
    {
      if id.Some? then LongHashCode(id.value) else 0
    }
  }

  /** Bitwise exclusive or of two naturals. */
  function Xor(a: nat, b: nat): nat
    decreases a + b
  {
    if a == 0 then b
    else if b == 0 then a
    else 2 * Xor(a / 2, b / 2) + (if a % 2 == b % 2 then 0 else 1)
  }

  function Pow2(n: nat): nat
  {
    if n == 0 then 1 else 2 * Pow2(n - 1)
  }

  lemma {:induction false} Pow2Add(a: nat, b: nat)
    ensures Pow2(a + b) == Pow2(a) * Pow2(b)
    decreases a
  {
    if a > 0 {
      Pow2Add(a - 1, b);
      assert Pow2(a + b) == 2 * Pow2(a - 1 + b);
      assert 2 * (Pow2(a - 1) * Pow2(b)) == (2 * Pow2(a - 1)) * Pow2(b);
    }
  }

  lemma Pow2Of32()
    ensures Pow2(32) == 0x1_0000_0000
  {
    assert Pow2(4) == 16;
    Pow2Add(4, 4);
    Pow2Add(8, 8);
    Pow2Add(16, 16);
  }

  lemma {:induction false} XorBelow(a: nat, b: nat, n: nat)
    requires a < Pow2(n) && b < Pow2(n)
    ensures Xor(a, b) < Pow2(n)
    decreases n
  {
    if a != 0 && b != 0 {
      XorBelow(a / 2, b / 2, n - 1);
    }
  }

  /**
   * `Long.hashCode(v)`: `(int)(v ^ (v >>> 32))` on the 64-bit two's complement
   * of `v`, that is the exclusive or of its two 32-bit halves, read as a signed
   * 32-bit value.
   */
  function LongHashCode(v: int): (h: int)
    ensures -0x8000_0000 <= h < 0x8000_0000
  {
    var u := v % 0x1_0000_0000_0000_0000;
    var low := u % 0x1_0000_0000;
    var high := u / 0x1_0000_0000;
    Pow2Of32();
    XorBelow(low, high, 32);
    var x := Xor(low, high);
    if x >= 0x8000_0000 then x - 0x1_0000_0000 else x
  }

  /** Ids below 2^31, which are all the store hands out in practice, hash to themselves. */
  lemma LongHashCodeOfSmallId(v: int)
    requires 0 <= v < 0x8000_0000
    ensures LongHashCode(v) == v
  {
    assert v % 0x1_0000_0000_0000_0000 == v;
    assert v / 0x1_0000_0000 == 0 && v % 0x1_0000_0000 == v;
  }

  /** Equal posts have equal hash codes. */
  lemma EqualsConsistentWithHashCode(a: Post, b: Post)
    ensures a.Equals(b) ==> a.HashCode() == b.HashCode()
    ensures a.Equals(b) == b.Equals(a)
    ensures a.Equals(a)
  {
  }

  /** Two posts without ids are equal and hash to 0; an id against none is unequal. */
  lemma EqualsOnAbsentIds(a: Post, b: Post)
    requires a.id.None?
    ensures b.id.None? ==> a.Equals(b) && a.HashCode() == 0 && b.HashCode() == 0
    ensures b.id.Some? ==> !a.Equals(b) && !b.Equals(a)
  {
  }

  /** The published-only predicate excludes every draft, whatever its criteria. */
  lemma DraftsNeverMatch(p: Post, params: Option<SearchParams>)
    requires p.isDraft
    ensures !p.MatchesSearchCriteria(params)
  {
  }
}
