/**
 * The tag overview of src/app/tags/TagClient.tsx: count how often each tag
 * occurs across the posts' tag lists in a record, then list the record's keys
 * in ascending order, each with its count.
 */
module TagClient {
  import opened Wrappers
  import opened Strings
  import TagsPage

  /** The part of a post the overview reads: its optional `tags`. */
  datatype Post = Post(tags: Option<seq<string>>)

  /** `post.tags || []` (an array, even an empty one, is truthy). */
  function TagsOf(p: Post): seq<string> {
    p.tags.GetOr([])
  }

  /** The posts handed over by the tags page, which always fills `tags`. */
  function FromTagsPage(ps: seq<TagsPage.TagPostMeta>): (r: seq<Post>)
    ensures |r| == |ps|
    ensures forall i :: 0 <= i < |ps| ==> r[i] == Post(Some(ps[i].tags))
  {
    seq(|ps|, i requires 0 <= i < |ps| => Post(Some(ps[i].tags)))
  }

  /** Every tag occurrence, post after post, in visiting order. */
  function AllTags(ps: seq<Post>): seq<string> {
    if ps == [] then [] else AllTags(ps[..|ps| - 1]) + TagsOf(ps[|ps| - 1])
  }

  /** Occurrences of the posts of two lists are those of the first list, then the second's. */
  lemma {:induction false} AllTagsAppend(a: seq<Post>, b: seq<Post>)
    ensures AllTags(a + b) == AllTags(a) + AllTags(b)
  {
    if b == [] {
      assert a + b == a;
    } else {
      var b' := b[..|b| - 1];
      assert (a + b)[..|a + b| - 1] == a + b';
      AllTagsAppend(a, b');
    }
  }

  /** No tag occurs exactly when every post's tag list is empty. */
  lemma {:induction false} AllTagsEmptyIff(ps: seq<Post>)
    ensures AllTags(ps) == [] <==> forall i :: 0 <= i < |ps| ==> TagsOf(ps[i]) == []
  {
    if ps != [] {
      var init := ps[..|ps| - 1];
      AllTagsEmptyIff(init);
      assert forall i :: 0 <= i < |init| ==> init[i] == ps[i];
    }
  }

  /** A post without `tags` contributes nothing, wherever it stands. */
  lemma PostWithoutTagsCountsNothing(a: seq<Post>, b: seq<Post>)
    ensures AllTags(a + [Post(None)] + b) == AllTags(a + b)
  {
    AllTagsAppend(a + [Post(None)], b);
    AllTagsAppend(a, b);
    assert (a + [Post(None)])[..|a|] == a;
  }

  /** The record after counting the occurrences `seen` one after another. */
  ghost function CountMap(seen: seq<string>): map<string, int> {
    if seen == [] then map[]
    else
      var m := CountMap(seen[..|seen| - 1]);
      var t := seen[|seen| - 1];
      m[t := (if t in m then m[t] else 0) + 1]
  }

  /** The record has a key exactly for each tag seen, holding its number of occurrences. */
  lemma {:induction false} CountMapMeaning(seen: seq<string>)
    ensures forall t :: t in CountMap(seen) <==> t in seen
    ensures forall t :: t in CountMap(seen) ==> CountMap(seen)[t] == multiset(seen)[t]
  {
    if seen != [] {
      var init := seen[..|seen| - 1];
      CountMapMeaning(init);
      assert seen == init + [seen[|seen| - 1]];
    }
  }

  /** Counting one more occurrence: the record and its key order after it. */
  lemma CountOne(seen: seq<string>, tag: string)
    ensures CountMap(seen + [tag])
      == CountMap(seen)[tag := (if tag in CountMap(seen) then CountMap(seen)[tag] else 0) + 1]
    ensures InsertionOrder(seen + [tag])
      == if tag in CountMap(seen) then InsertionOrder(seen) else InsertionOrder(seen) + [tag]
  {
    assert (seen + [tag])[..|seen|] == seen;
    InsertionOrderStep(seen, tag);
    CountMapHas(seen, tag);
  }

  lemma CountMapHas(seen: seq<string>, tag: string)
    ensures tag in CountMap(seen) <==> tag in seen
  {
    CountMapMeaning(seen);
  }

  /**
   * The counting loops: for each post, for each of its tags,
   * `tagMap[tag] = (tagMap[tag] || 0) + 1`. Also returns the record's keys in
   * assignment order.
   */
  method CountTags(posts: seq<Post>) returns (tagMap: map<string, int>, keys: seq<string>)
    ensures forall t :: t in tagMap <==> t in AllTags(posts)
    ensures forall t :: t in tagMap ==> tagMap[t] == multiset(AllTags(posts))[t]
    ensures keys == InsertionOrder(AllTags(posts))
  {
    tagMap := map[];
    keys := [];
    var i := 0;
    while i < |posts|
      invariant 0 <= i <= |posts|
      invariant tagMap == CountMap(AllTags(posts[..i]))
      invariant keys == InsertionOrder(AllTags(posts[..i]))
    {
      tagMap, keys := CountPostTags(tagMap, keys, AllTags(posts[..i]), TagsOf(posts[i]));
      AllTagsStep(posts, i);
      i := i + 1;
    }
    assert posts[..i] == posts;
    CountMapMeaning(AllTags(posts));
  }

  /** The inner loop: count the tags `ts` of one post on top of the occurrences `before`. */
  method CountPostTags(tagMap0: map<string, int>, keys0: seq<string>, ghost before: seq<string>, ts: seq<string>)
    returns (tagMap: map<string, int>, keys: seq<string>)
    requires tagMap0 == CountMap(before) && keys0 == InsertionOrder(before)
    ensures tagMap == CountMap(before + ts) && keys == InsertionOrder(before + ts)
  {
    tagMap, keys := tagMap0, keys0;
    var j := 0;
    assert before + ts[..j] == before;
    while j < |ts|
      invariant 0 <= j <= |ts|
      invariant tagMap == CountMap(before + ts[..j])
      invariant keys == InsertionOrder(before + ts[..j])
    {
      var tag := ts[j];
      CountOne(before + ts[..j], tag);
      PrefixStep(before, ts, j);
      var count := if tag in tagMap then tagMap[tag] else 0;
      if tag !in tagMap {
        keys := keys + [tag];
      }
      tagMap := tagMap[tag := count + 1];
      j := j + 1;
    }
    assert ts[..j] == ts;
  }

  lemma PrefixStep(before: seq<string>, ts: seq<string>, j: int)
    requires 0 <= j < |ts|
    ensures before + ts[..j + 1] == (before + ts[..j]) + [ts[j]]
  {
    assert ts[..j + 1] == ts[..j] + [ts[j]];
  }

  lemma AllTagsStep(posts: seq<Post>, i: int)
    requires 0 <= i < |posts|
    ensures AllTags(posts[..i + 1]) == AllTags(posts[..i]) + TagsOf(posts[i])
  {
    assert posts[..i + 1][..i] == posts[..i];
  }

  /** `Object.keys(tagMap).sort()` as a function of the posts. */
  ghost function DisplayedTags(posts: seq<Post>): (r: seq<string>)
    ensures SortedAsc(r)
    ensures multiset(r) == multiset(InsertionOrder(AllTags(posts)))
  {
    SortStrings(PropertyOrder(InsertionOrder(AllTags(posts))))
  }

  /** The displayed list is sorted, repeat-free, and holds exactly the occurring tags. */
  lemma DisplayedTagsShape(posts: seq<Post>)
    ensures SortedAsc(DisplayedTags(posts)) && Distinct(DisplayedTags(posts))
    ensures forall t :: t in DisplayedTags(posts) <==> t in AllTags(posts)
  {
    var keys := InsertionOrder(AllTags(posts));
    InsertionOrderShape(AllTags(posts));
    PermutationKeepsDistinct(keys, PropertyOrder(keys));
    PermutationKeepsDistinct(PropertyOrder(keys), DisplayedTags(posts));
  }

  /**
   * The overview: the sorted tag list and the record of counts. Each distinct
   * tag is listed once, in ascending order, and only tags that occur are listed.
   */
  method TagOverview(posts: seq<Post>) returns (tags: seq<string>, tagMap: map<string, int>)
    ensures tags == DisplayedTags(posts)
    ensures SortedAsc(tags) && Distinct(tags)
    ensures forall t :: t in tags <==> t in AllTags(posts)
    ensures forall t :: t in tags ==> t in tagMap && tagMap[t] == multiset(AllTags(posts))[t]
  {
    var keys;
    tagMap, keys := CountTags(posts);
    tags := SortStrings(PropertyOrder(keys));
    DisplayedTagsShape(posts);
  }

  /**
   * The list does not depend on the order in which the keys come out of the
   * record: any sorted, repeat-free list of exactly the occurring tags is it.
   */
  lemma DisplayedTagsDetermined(posts: seq<Post>, other: seq<string>)
    requires SortedAsc(other) && Distinct(other)
    requires forall t :: t in other <==> t in AllTags(posts)
    ensures other == DisplayedTags(posts)
  {
    DisplayedTagsShape(posts);
    SortedDistinctUnique(other, DisplayedTags(posts));
  }

  /** The count shown next to a tag is at least one: a listed tag occurs. */
  lemma ListedCountPositive(posts: seq<Post>, t: string)
    requires t in DisplayedTags(posts)
    ensures multiset(AllTags(posts))[t] >= 1
  {
    DisplayedTagsShape(posts);
  }
}
