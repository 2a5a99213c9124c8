/**
 * The category overview of src/app/categories/CategoryClient.tsx: group the
 * posts in a record keyed by category, a post without a category going to
 * "Uncategorized", then list each key with the size of its group.
 */
module CategoryClient {
  import opened Strings
  import Posts

  const Uncategorized: string := "Uncategorized"

  /** `post.categories || 'Uncategorized'`. */
  function CategoryOf(p: Posts.PostMeta): (c: string)
    ensures c != ""
    ensures p.categories == "" ==> c == Uncategorized
    ensures p.categories != "" ==> c == p.categories
  {
    if p.categories != "" then p.categories else Uncategorized
  }

  /** The category of each post, in order. */
  function Categories(posts: seq<Posts.PostMeta>): seq<string> {
    if posts == [] then [] else Categories(posts[..|posts| - 1]) + [CategoryOf(posts[|posts| - 1])]
  }

  lemma {:induction false} CategoriesAt(posts: seq<Posts.PostMeta>)
    ensures |Categories(posts)| == |posts|
    ensures forall i :: 0 <= i < |posts| ==> Categories(posts)[i] == CategoryOf(posts[i])
  {
    if posts != [] {
      CategoriesAt(posts[..|posts| - 1]);
    }
  }

  /** The posts of category `c`, in input order. */
  function Group(posts: seq<Posts.PostMeta>, c: string): seq<Posts.PostMeta> {
    if posts == [] then []
    else
      var last := posts[|posts| - 1];
      Group(posts[..|posts| - 1], c) + (if CategoryOf(last) == c then [last] else [])
  }

  /** A group holds exactly the posts of its category. */
  lemma {:induction false} GroupMembers(posts: seq<Posts.PostMeta>, c: string)
    ensures forall p :: p in Group(posts, c) <==> p in posts && CategoryOf(p) == c
  {
    if posts != [] {
      var init := posts[..|posts| - 1];
      GroupMembers(init, c);
      assert posts == init + [posts[|posts| - 1]];
    }
  }

  /** A category no post has has an empty group. */
  lemma {:induction false} GroupAbsent(posts: seq<Posts.PostMeta>, c: string)
    requires c !in Categories(posts)
    ensures Group(posts, c) == []
  {
    if posts != [] {
      GroupAbsent(posts[..|posts| - 1], c);
    }
  }

  /** Groups keep input order: grouping distributes over concatenation. */
  lemma {:induction false} GroupAppend(a: seq<Posts.PostMeta>, b: seq<Posts.PostMeta>, c: string)
    ensures Group(a + b, c) == Group(a, c) + Group(b, c)
  {
    if b == [] {
      assert a + b == a;
    } else {
      var b' := b[..|b| - 1];
      assert (a + b)[..|a + b| - 1] == a + b';
      GroupAppend(a, b', c);
    }
  }

  /** The record after pushing the posts `done` one after another. */
  ghost function GroupMap(done: seq<Posts.PostMeta>): map<string, seq<Posts.PostMeta>> {
    if done == [] then map[]
    else
      var m := GroupMap(done[..|done| - 1]);
      var p := done[|done| - 1];
      var c := CategoryOf(p);
      m[c := (if c in m then m[c] else []) + [p]]
  }

  /** The record has a key exactly for each category met, holding that category's posts in order. */
  lemma {:induction false} GroupMapMeaning(done: seq<Posts.PostMeta>)
    ensures forall c :: c in GroupMap(done) <==> c in Categories(done)
    ensures forall c :: c in GroupMap(done) ==> GroupMap(done)[c] == Group(done, c)
  {
    if done != [] {
      var init := done[..|done| - 1];
      GroupMapMeaning(init);
      var c0 := CategoryOf(done[|done| - 1]);
      if c0 !in GroupMap(init) {
        GroupAbsent(init, c0);
      }
    }
  }

  /** Pushing one more post: the record and its key order after it. */
  lemma GroupOne(done: seq<Posts.PostMeta>, p: Posts.PostMeta, m: map<string, seq<Posts.PostMeta>>, k: seq<string>,
                 m': map<string, seq<Posts.PostMeta>>, k': seq<string>)
    requires m == GroupMap(done) && k == InsertionOrder(Categories(done))
    requires var c := CategoryOf(p);
      m' == m[c := (if c in m then m[c] else []) + [p]]
      && k' == if c in m then k else k + [c]
    ensures m' == GroupMap(done + [p]) && k' == InsertionOrder(Categories(done + [p]))
  {
    var c := CategoryOf(p);
    assert (done + [p])[..|done|] == done;
    assert Categories(done + [p]) == Categories(done) + [c];
    InsertionOrderStep(Categories(done), c);
    GroupMapHas(done, c);
  }

  lemma GroupMapHas(done: seq<Posts.PostMeta>, c: string)
    ensures c in GroupMap(done) <==> c in Categories(done)
  {
    GroupMapMeaning(done);
  }

  /**
   * The grouping loop: for each post, create its category's array if missing,
   * then push the post. Also returns the record's keys in creation order.
   */
  method GroupByCategory(posts: seq<Posts.PostMeta>)
    returns (categoryMap: map<string, seq<Posts.PostMeta>>, keys: seq<string>)
    ensures forall c :: c in categoryMap <==> c in Categories(posts)
    ensures forall c :: c in categoryMap ==> categoryMap[c] == Group(posts, c)
    ensures keys == InsertionOrder(Categories(posts))
  {
    categoryMap := map[];
    keys := [];
    var i := 0;
    while i < |posts|
      invariant 0 <= i <= |posts|
      invariant categoryMap == GroupMap(posts[..i])
      invariant keys == InsertionOrder(Categories(posts[..i]))
    {
      categoryMap, keys := PushPost(categoryMap, keys, posts[..i], posts[i]);
      assert posts[..i + 1] == posts[..i] + [posts[i]];
      i := i + 1;
    }
    assert posts[..i] == posts;
    GroupMapMeaning(posts);
  }

  /**
   * One step of the loop: create the post's category array if missing, then
   * push the post, on top of the record built from the posts `done`.
   */
  method PushPost(categoryMap0: map<string, seq<Posts.PostMeta>>, keys0: seq<string>,
                  ghost done: seq<Posts.PostMeta>, post: Posts.PostMeta)
    returns (categoryMap: map<string, seq<Posts.PostMeta>>, keys: seq<string>)
    requires categoryMap0 == GroupMap(done) && keys0 == InsertionOrder(Categories(done))
    ensures categoryMap == GroupMap(done + [post]) && keys == InsertionOrder(Categories(done + [post]))
  {
    categoryMap, keys := categoryMap0, keys0;
    var category := CategoryOf(post);
    var group := [];
    if category in categoryMap {
      group := categoryMap[category];
    } else {
      categoryMap := categoryMap[category := group];
      keys := keys + [category];
    }
    categoryMap := categoryMap[category := group + [post]];
    GroupOne(done, post, categoryMap0, keys0, categoryMap, keys);
  }

  /** The order `Object.entries(categoryMap)` lists the categories in. */
  function ListedCategories(posts: seq<Posts.PostMeta>): (r: seq<string>)
    ensures multiset(r) == multiset(InsertionOrder(Categories(posts)))
  {
    PropertyOrder(InsertionOrder(Categories(posts)))
  }

  /** The categories met are exactly those of some post. */
  lemma CategoriesMembers(posts: seq<Posts.PostMeta>)
    ensures forall c :: c in Categories(posts) <==> exists i :: 0 <= i < |posts| && CategoryOf(posts[i]) == c
  {
    CategoriesAt(posts);
    forall c | c in Categories(posts) ensures exists i :: 0 <= i < |posts| && CategoryOf(posts[i]) == c {
      var i :| 0 <= i < |posts| && Categories(posts)[i] == c;
    }
    forall c | exists i :: 0 <= i < |posts| && CategoryOf(posts[i]) == c ensures c in Categories(posts) {
      var i :| 0 <= i < |posts| && CategoryOf(posts[i]) == c;
      assert Categories(posts)[i] == c;
    }
  }

  /** Each category is listed once, and exactly the categories of the posts are listed. */
  lemma ListedCategoriesShape(posts: seq<Posts.PostMeta>)
    ensures Distinct(ListedCategories(posts))
    ensures forall c :: c in ListedCategories(posts) <==> exists i :: 0 <= i < |posts| && CategoryOf(posts[i]) == c
  {
    var keys := InsertionOrder(Categories(posts));
    var listed := ListedCategories(posts);
    InsertionOrderShape(Categories(posts));
    PermutationKeepsDistinct(keys, listed);
    assert forall c :: c in listed <==> c in Categories(posts);
    CategoriesMembers(posts);
  }

  /** When no category is an array index, categories are listed in order of first appearance. */
  lemma ListedInFirstAppearanceOrder(posts: seq<Posts.PostMeta>)
    requires forall i :: 0 <= i < |posts| ==> !IsArrayIndex(CategoryOf(posts[i]))
    ensures ListedCategories(posts) == InsertionOrder(Categories(posts))
  {
    var keys := InsertionOrder(Categories(posts));
    forall i | 0 <= i < |keys| ensures !IsArrayIndex(keys[i]) {
      KeyIsCategory(posts, keys[i]);
    }
    PropertyOrderPlain(keys);
  }

  /** Every key of the record is the category of some post. */
  lemma KeyIsCategory(posts: seq<Posts.PostMeta>, c: string)
    requires c in InsertionOrder(Categories(posts))
    ensures exists i :: 0 <= i < |posts| && CategoryOf(posts[i]) == c
  {
    InsertionOrderShape(Categories(posts));
    assert c in Categories(posts);
    CategoriesMembers(posts);
  }

  /** `Object.entries(categoryMap)` rendered as `category (items.length)`. */
  method CategoryListing(posts: seq<Posts.PostMeta>) returns (entries: seq<(string, nat)>)
    ensures |entries| == |ListedCategories(posts)|
    ensures forall i :: 0 <= i < |entries| ==>
      entries[i] == (ListedCategories(posts)[i], |Group(posts, ListedCategories(posts)[i])|)
  {
    var categoryMap, keys := GroupByCategory(posts);
    var order := PropertyOrder(keys);
    InsertionOrderShape(Categories(posts));
    ListedInMap(categoryMap, keys, order);
    entries := seq(|order|, i requires 0 <= i < |order| => (order[i], |categoryMap[order[i]]|));
  }

  lemma ListedInMap(categoryMap: map<string, seq<Posts.PostMeta>>, keys: seq<string>, order: seq<string>)
    requires forall c :: c in keys ==> c in categoryMap
    requires multiset(order) == multiset(keys)
    ensures forall i :: 0 <= i < |order| ==> order[i] in categoryMap
  {
    forall i | 0 <= i < |order| ensures order[i] in categoryMap {
      assert order[i] in multiset(order);
    }
  }

  /** Total size of the groups of the categories `ks`. */
  function SumSizes(posts: seq<Posts.PostMeta>, ks: seq<string>): nat {
    if ks == [] then 0 else |Group(posts, ks[0])| + SumSizes(posts, ks[1..])
  }

  lemma {:induction false} SumSizesEmpty(ks: seq<string>)
    ensures SumSizes([], ks) == 0
  {
    if ks != [] {
      SumSizesEmpty(ks[1..]);
    }
  }

  /** One more post adds one to the groups of its category, once per time that category is listed. */
  lemma {:induction false} SumSizesStep(posts: seq<Posts.PostMeta>, p: Posts.PostMeta, ks: seq<string>)
    ensures SumSizes(posts + [p], ks) == SumSizes(posts, ks) + multiset(ks)[CategoryOf(p)]
  {
    if ks != [] {
      SumSizesStep(posts, p, ks[1..]);
      assert (posts + [p])[..|posts|] == posts;
      assert ks == [ks[0]] + ks[1..];
    }
  }

  /**
   * Every post lands in exactly one group: over a repeat-free list of keys that
   * covers every post's category, the group sizes add up to the number of posts.
   */
  lemma {:induction false} SumSizesAll(posts: seq<Posts.PostMeta>, ks: seq<string>)
    requires Distinct(ks)
    requires forall i :: 0 <= i < |posts| ==> CategoryOf(posts[i]) in ks
    ensures SumSizes(posts, ks) == |posts|
  {
    if posts == [] {
      SumSizesEmpty(ks);
    } else {
      var init := posts[..|posts| - 1];
      var p := posts[|posts| - 1];
      SumSizesAll(init, ks);
      assert posts == init + [p];
      SumSizesStep(init, p, ks);
      DistinctCountAtMostOne(ks, CategoryOf(p));
    }
  }

  /** The listed counts add up to the number of posts. */
  lemma ListedSizesSum(posts: seq<Posts.PostMeta>)
    ensures SumSizes(posts, ListedCategories(posts)) == |posts|
  {
    ListedCategoriesShape(posts);
    SumSizesAll(posts, ListedCategories(posts));
  }

  /** A post with an empty `categories` is in the "Uncategorized" group. */
  lemma EmptyCategoryIsUncategorized(posts: seq<Posts.PostMeta>, p: Posts.PostMeta)
    requires p in posts && p.categories == ""
    ensures p in Group(posts, Uncategorized)
    ensures Uncategorized in ListedCategories(posts)
  {
    GroupMembers(posts, Uncategorized);
    ListedCategoriesShape(posts);
    var i :| 0 <= i < |posts| && posts[i] == p;
  }
}
