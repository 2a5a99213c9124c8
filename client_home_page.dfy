/**
 * The derived values of the home page, src/components/ClientHomePage.tsx:
 * localized titles and descriptions, the tag strip of a post card, the
 * recent-posts list and the category and tag counts of the statistics box.
 */
module ClientHomePage {
  import opened Wrappers
  import opened Strings
  import Posts
  import TagClient
  import CategoryClient

  /**
   * `text[language]` on an `{ en, zh }` object: the entry of that name, or
   * `undefined` (read as "") for any other language string.
   */
  function Entry(en: string, zh: string, language: string): string {
    if language == "en" then en else if language == "zh" then zh else ""
  }

  /** `getLocalizedText(text)` in the current `language`. */
  function GetLocalizedText(text: Option<Posts.Text>, language: string): (r: string)
    ensures text.None? ==> r == ""
    ensures text.Some? && text.value.Plain? ==> r == text.value.s
    ensures text.Some? && text.value.Bilingual? ==>
      var t := text.value;
      (Entry(t.en, t.zh, language) != "" ==> r == Entry(t.en, t.zh, language))
      && (Entry(t.en, t.zh, language) == "" ==> r == t.en)
  {
    match text
    case None => ""
    case Some(Plain(s)) => if s == "" then "" else s
    case Some(Bilingual(en, zh)) =>
      var own := Entry(en, zh, language);
      if own != "" then own else if en != "" then en else ""
  }

  /** A bilingual text shows one of its entries, and it is blank only when both candidates are. */
  lemma LocalizedIsAnEntry(en: string, zh: string, language: string)
    ensures var r := GetLocalizedText(Some(Posts.Bilingual(en, zh)), language);
      (r == en || r == zh)
      && (r == "" <==> en == "" && Entry(en, zh, language) == "")
  {
  }

  /** Every language other than "zh" shows the English entry. */
  lemma NonChineseShowsEnglish(en: string, zh: string, language: string)
    requires language != "zh"
    ensures GetLocalizedText(Some(Posts.Bilingual(en, zh)), language) == en
  {
  }

  /** The tags row of a post card: nothing for an empty list, else the shown tags and the "+N" badge. */
  datatype TagStrip = NoStrip | Strip(shown: seq<string>, more: Option<nat>)

  const MaxShownTags: nat := 4

  /** `tags.length > 0 && (tags.slice(0, 4), tags.length > 4 && +(tags.length - 4))`. */
  function TagStripOf(tags: seq<string>): (s: TagStrip)
    ensures s.NoStrip? <==> tags == []
    ensures s.Strip? ==> |s.shown| == (if |tags| < MaxShownTags then |tags| else MaxShownTags)
    ensures s.Strip? ==> s.shown == tags[..|s.shown|]
    ensures s.Strip? ==> (s.more.Some? <==> |tags| > MaxShownTags)
    ensures s.Strip? && s.more.Some? ==> s.more.value == |tags| - MaxShownTags
  {
    if |tags| == 0 then NoStrip
    else
      var n := if |tags| < MaxShownTags then |tags| else MaxShownTags;
      Strip(tags[..n], if |tags| > MaxShownTags then Some(|tags| - MaxShownTags) else None)
  }

  /**
   * Shown tags and the badge account for every tag: the badge counts exactly
   * the hidden ones, which are all tags past the fourth.
   */
  lemma TagStripCountsAll(tags: seq<string>)
    requires tags != []
    ensures var s := TagStripOf(tags); |s.shown| + s.more.GetOr(0) == |tags|
    ensures var s := TagStripOf(tags); s.more.Some? ==>
      s.shown + tags[MaxShownTags..] == tags && s.more.value == |tags| - MaxShownTags == |tags[MaxShownTags..]|
  {
  }

  const RecentCount: nat := 5

  /** `posts.slice(0, 5)`. */
  function RecentPosts(posts: seq<Posts.PostMeta>): (r: seq<Posts.PostMeta>)
    ensures |r| == if |posts| < RecentCount then |posts| else RecentCount
    ensures r == posts[..|r|]
  {
    if |posts| < RecentCount then posts else posts[..RecentCount]
  }

  /** Over the date-sorted post list, no post left out of the recent list is newer than one in it. */
  lemma RecentAreNewest(files: seq<Posts.PostFile>)
    ensures var posts := Posts.GetAllPosts(files); var r := RecentPosts(posts);
      forall i, j :: 0 <= i < |r| <= j < |posts| ==> LessEq(posts[j].date, r[i].date)
  {
  }

  /** The distinct non-empty categories of the posts. */
  ghost function CategorySet(posts: seq<Posts.PostMeta>): set<string> {
    set i | 0 <= i < |posts| && posts[i].categories != "" :: posts[i].categories
  }

  /**
   * The number of distinct non-empty categories: `new Set(categories.filter(Boolean)).size`.
   * It is at most the number of posts, and zero exactly when no post has a category.
   */
  function CategoryCount(posts: seq<Posts.PostMeta>): (r: nat)
    ensures r <= |posts|
    ensures r == 0 <==> forall i :: 0 <= i < |posts| ==> posts[i].categories == ""
  {
    CategorySetBound(posts);
    var cats := set i | 0 <= i < |posts| && posts[i].categories != "" :: posts[i].categories;
    assert forall i :: 0 <= i < |posts| && posts[i].categories != "" ==> posts[i].categories in cats;
    |cats|
  }

  lemma {:induction false} CategorySetBound(posts: seq<Posts.PostMeta>)
    ensures |CategorySet(posts)| <= |posts|
  {
    if posts != [] {
      var init := posts[..|posts| - 1];
      var last := posts[|posts| - 1];
      CategorySetBound(init);
      assert CategorySet(posts) <= CategorySet(init) + {last.categories} by {
        forall c | c in CategorySet(posts) ensures c in CategorySet(init) + {last.categories} {
          var i :| 0 <= i < |posts| && posts[i].categories != "" && posts[i].categories == c;
          if i < |posts| - 1 {
            assert init[i] == posts[i];
          }
        }
      }
      SubsetCard(CategorySet(posts), CategorySet(init) + {last.categories});
    }
  }

  lemma SubsetCard(a: set<string>, b: set<string>)
    requires a <= b
    ensures |a| <= |b|
  {
    assert b == a + (b - a);
  }

  /**
   * When every post has a category, the count equals the number of entries of
   * the category overview.
   */
  lemma CategoryCountMatchesOverview(posts: seq<Posts.PostMeta>)
    requires forall i :: 0 <= i < |posts| ==> posts[i].categories != ""
    ensures CategoryCount(posts) == |CategoryClient.ListedCategories(posts)|
  {
    var listed := CategoryClient.ListedCategories(posts);
    CategoryClient.ListedCategoriesShape(posts);
    DistinctCard(listed);
    assert (set i | 0 <= i < |posts| && posts[i].categories != "" :: posts[i].categories)
      == (set c | c in listed) by {
      forall c | c in listed ensures exists i :: 0 <= i < |posts| && posts[i].categories != "" && posts[i].categories == c {
        var i :| 0 <= i < |posts| && CategoryClient.CategoryOf(posts[i]) == c;
      }
    }
  }

  /** The posts as the tag overview reads them: `tags` always present. */
  function TagPosts(posts: seq<Posts.PostMeta>): (r: seq<TagClient.Post>)
    ensures |r| == |posts|
    ensures forall i :: 0 <= i < |posts| ==> r[i] == TagClient.Post(Some(posts[i].tags))
  {
    seq(|posts|, i requires 0 <= i < |posts| => TagClient.Post(Some(posts[i].tags)))
  }

  /**
   * The number of distinct tags: `new Set(posts.flatMap(post => post.tags || [])).size`.
   * It is zero exactly when every post's tag list is empty.
   */
  function TagCount(posts: seq<Posts.PostMeta>): (r: nat)
    ensures r == 0 <==> forall i :: 0 <= i < |posts| ==> posts[i].tags == []
  {
    TagClient.AllTagsEmptyIff(TagPosts(posts));
    assert forall i :: 0 <= i < |posts| ==> TagClient.TagsOf(TagPosts(posts)[i]) == posts[i].tags;
    var tags := TagClient.AllTags(TagPosts(posts));
    var distinct := set t | t in tags;
    assert tags != [] ==> tags[0] in distinct;
    assert tags == [] ==> distinct == {};
    |distinct|
  }

  /** The count equals the length of the tag overview's list. */
  lemma TagCountMatchesOverview(posts: seq<Posts.PostMeta>)
    ensures TagCount(posts) == |TagClient.DisplayedTags(TagPosts(posts))|
  {
    var shown := TagClient.DisplayedTags(TagPosts(posts));
    TagClient.DisplayedTagsShape(TagPosts(posts));
    DistinctCard(shown);
    assert (set t | t in TagClient.AllTags(TagPosts(posts))) == (set t | t in shown);
  }
}
