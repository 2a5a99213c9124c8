/**
 * The local post loader of src/app/tags/page.tsx: the same `.mdx` filter and
 * field defaults as the shared loader, without the `categories` field and
 * without sorting, so posts stay in directory order.
 */
module TagsPage {
  import opened Wrappers
  import opened Strings
  import Posts

  /** The tags page's own `PostMeta`: no `categories`. */
  datatype TagPostMeta = TagPostMeta(
    title: Posts.Text,
    date: string,
    description: Posts.Text,
    tags: seq<string>,
    slug: string)

  /** The post built for one file. */
  function ToTagMeta(f: Posts.PostFile): (m: TagPostMeta)
    ensures m.slug == Posts.Slug(f.name)
    ensures Posts.TextTruthy(f.data.title) ==> m.title == f.data.title.value
    ensures !Posts.TextTruthy(f.data.title) ==> m.title == Posts.Plain(m.slug)
    ensures m.date == Posts.DateText(f.data.date)
    ensures Posts.TextTruthy(f.data.description) ==> m.description == f.data.description.value
    ensures !Posts.TextTruthy(f.data.description) ==> m.description == Posts.Plain("")
    ensures m.tags == if f.data.tags.Some? then f.data.tags.value else []
  {
    var d := f.data;
    TagPostMeta(
      Posts.TextOr(d.title, Posts.Slug(f.name)),
      Posts.DateText(d.date),
      Posts.TextOr(d.description, ""),
      d.tags.GetOr([]),
      Posts.Slug(f.name))
  }

  /** The post of each file, in order. */
  function MapTagMeta(fs: seq<Posts.PostFile>): (r: seq<TagPostMeta>)
    ensures |r| == |fs|
    ensures forall i :: 0 <= i < |fs| ==> r[i] == ToTagMeta(fs[i])
  {
    if fs == [] then [] else [ToTagMeta(fs[0])] + MapTagMeta(fs[1..])
  }

  lemma {:induction false} MapTagMetaAppend(a: seq<Posts.PostFile>, b: seq<Posts.PostFile>)
    ensures MapTagMeta(a + b) == MapTagMeta(a) + MapTagMeta(b)
  {
    if a == [] {
      assert a + b == b;
    } else {
      assert (a + b)[1..] == a[1..] + b;
      MapTagMetaAppend(a[1..], b);
    }
  }

  /** `getAllPosts()` of the tags page: one post per `.mdx` file, in directory order. */
  function GetAllPosts(files: seq<Posts.PostFile>): (r: seq<TagPostMeta>)
    ensures |r| == |Posts.FilterMdx(files)|
    ensures forall i :: 0 <= i < |r| ==> r[i] == ToTagMeta(Posts.FilterMdx(files)[i])
  {
    MapTagMeta(Posts.FilterMdx(files))
  }

  /** The tags page's post for a file is the shared loader's post without its `categories`. */
  lemma AgreesWithSharedLoader(f: Posts.PostFile)
    ensures var m := Posts.ToMeta(f);
      ToTagMeta(f) == TagPostMeta(m.title, m.date, m.description, m.tags, m.slug)
  {
  }

  /**
   * Directory order is kept: the posts of a directory listing followed by more
   * files are that listing's posts followed by the others' posts.
   */
  lemma KeepsDirectoryOrder(a: seq<Posts.PostFile>, b: seq<Posts.PostFile>)
    ensures GetAllPosts(a + b) == GetAllPosts(a) + GetAllPosts(b)
  {
    Posts.FilterMdxAppend(a, b);
    MapTagMetaAppend(Posts.FilterMdx(a), Posts.FilterMdx(b));
  }
}
