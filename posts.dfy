/**
 * Post metadata as src/lib/posts.ts derives it: keep the `.mdx` files of the
 * posts directory, turn each file's frontmatter into a `PostMeta` with default
 * fields, and sort by date, newest first.
 *
 * Reading the directory and parsing the frontmatter are inputs: a post file is
 * its name and the frontmatter values gray-matter produced for it.
 */
module Posts {
  import opened Wrappers
  import opened Strings

  /** A title or description: a plain string or an `{ en, zh }` object. */
  datatype Text = Plain(s: string) | Bilingual(en: string, zh: string)

  /**
   * A frontmatter `date`: a string, or any other value (a parsed Date, a number,
   * absent) together with what `String(value)` renders it as.
   */
  datatype DateValue = DateString(s: string) | OtherValue(rendered: string)

  /** The frontmatter fields the derivation reads; None is an absent field. */
  datatype Frontmatter = Frontmatter(
    title: Option<Text>,
    date: DateValue,
    description: Option<Text>,
    categories: Option<string>,
    tags: Option<seq<string>>)

  /** A directory entry and its parsed frontmatter. */
  datatype PostFile = PostFile(name: string, data: Frontmatter)

  datatype PostMeta = PostMeta(
    title: Text,
    date: string,
    description: Text,
    categories: string,
    tags: seq<string>,
    slug: string)

  const MdxExtension: string := ".mdx"

  predicate IsMdx(name: string) {
    EndsWith(name, MdxExtension)
  }

  /** `name.replace(/\.mdx$/, '')`: the name without a trailing ".mdx". */
  function Slug(name: string): (r: string)
    ensures IsMdx(name) ==> r + MdxExtension == name
    ensures !IsMdx(name) ==> r == name
  {
    if IsMdx(name) then name[..|name| - |MdxExtension|] else name
  }

  /** JavaScript truthiness of an optional title or description: an object is always truthy, a string when non-empty. */
  predicate TextTruthy(t: Option<Text>) {
    t.Some? && (t.value.Plain? ==> t.value.s != "")
  }

  /** `t || fallback` on a title or description. */
  function TextOr(t: Option<Text>, fallback: string): (r: Text)
    ensures TextTruthy(t) ==> r == t.value
    ensures !TextTruthy(t) ==> r == Plain(fallback)
  {
    if TextTruthy(t) then t.value else Plain(fallback)
  }

  /** `typeof date === 'string' ? date : String(date)`. */
  function DateText(d: DateValue): string {
    match d
    case DateString(s) => s
    case OtherValue(rendered) => rendered
  }

  /** The `PostMeta` built for one file. */
  function ToMeta(f: PostFile): (m: PostMeta)
    ensures m.slug == Slug(f.name)
    ensures TextTruthy(f.data.title) ==> m.title == f.data.title.value
    ensures !TextTruthy(f.data.title) ==> m.title == Plain(m.slug)
    ensures m.date == DateText(f.data.date)
    ensures TextTruthy(f.data.description) ==> m.description == f.data.description.value
    ensures !TextTruthy(f.data.description) ==> m.description == Plain("")
    ensures m.categories == if f.data.categories.Some? then f.data.categories.value else ""
    ensures m.tags == if f.data.tags.Some? then f.data.tags.value else []
  {
    var d := f.data;
    PostMeta(
      TextOr(d.title, Slug(f.name)),
      DateText(d.date),
      TextOr(d.description, ""),
      d.categories.GetOr(""),
      d.tags.GetOr([]),
      Slug(f.name))
  }

  /** `files.filter(file => file.endsWith('.mdx'))`. */
  function FilterMdx(files: seq<PostFile>): (r: seq<PostFile>)
    ensures forall i :: 0 <= i < |r| ==> IsMdx(r[i].name)
    ensures forall f :: f in r <==> f in files && IsMdx(f.name)
    ensures |r| <= |files|
  {
    if files == [] then []
    else
      var rest := FilterMdx(files[1..]);
      assert files == [files[0]] + files[1..];
      if IsMdx(files[0].name) then [files[0]] + rest else rest
  }

  /** Filtering keeps the directory order: it distributes over concatenation. */
  lemma {:induction false} FilterMdxAppend(a: seq<PostFile>, b: seq<PostFile>)
    ensures FilterMdx(a + b) == FilterMdx(a) + FilterMdx(b)
  {
    if a != [] {
      assert (a + b)[1..] == a[1..] + b;
      FilterMdxAppend(a[1..], b);
    } else {
      assert a + b == b;
    }
  }

  /** The metadata of each file, in order. */
  function MapMeta(files: seq<PostFile>): (r: seq<PostMeta>)
    ensures |r| == |files|
    ensures forall i :: 0 <= i < |files| ==> r[i] == ToMeta(files[i])
  {
    if files == [] then [] else [ToMeta(files[0])] + MapMeta(files[1..])
  }

  /** `b.date.localeCompare(a.date)` order: dates never increase along the list. */
  predicate SortedByDateDesc(ps: seq<PostMeta>) {
    forall i, j :: 0 <= i < j < |ps| ==> LessEq(ps[j].date, ps[i].date)
  }

  /** The posts with date `d`, in list order. */
  function WithDate(ps: seq<PostMeta>, d: string): (r: seq<PostMeta>)
    ensures forall i :: 0 <= i < |r| ==> r[i].date == d
  {
    if ps == [] then []
    else (if ps[0].date == d then [ps[0]] else []) + WithDate(ps[1..], d)
  }

  /** Places `p` before the first post that is not strictly newer, keeping equal dates in arrival order. */
  function InsertByDate(p: PostMeta, ps: seq<PostMeta>): (r: seq<PostMeta>)
    requires SortedByDateDesc(ps)
    ensures SortedByDateDesc(r)
    ensures multiset(r) == multiset(ps) + multiset{p}
    ensures forall d :: WithDate(r, d) == (if p.date == d then [p] else []) + WithDate(ps, d)
  {
    if ps == [] then [p]
    else if LessEq(ps[0].date, p.date) then
      InsertFront(p, ps);
      [p] + ps
    else
      var t := InsertByDate(p, ps[1..]);
      InsertBehind(p, ps, t);
      [ps[0]] + t
  }

  lemma InsertFront(p: PostMeta, ps: seq<PostMeta>)
    requires SortedByDateDesc(ps) && ps != [] && LessEq(ps[0].date, p.date)
    ensures SortedByDateDesc([p] + ps)
    ensures forall d :: WithDate([p] + ps, d) == (if p.date == d then [p] else []) + WithDate(ps, d)
  {
    forall j | 0 <= j < |ps| ensures LessEq(ps[j].date, p.date) {
      if j > 0 { LessEqTransitive(ps[j].date, ps[0].date, p.date); }
    }
    assert ([p] + ps)[1..] == ps;
  }

  lemma InsertBehind(p: PostMeta, ps: seq<PostMeta>, t: seq<PostMeta>)
    requires SortedByDateDesc(ps) && ps != [] && !LessEq(ps[0].date, p.date)
    requires SortedByDateDesc(t) && multiset(t) == multiset(ps[1..]) + multiset{p}
    requires forall d :: WithDate(t, d) == (if p.date == d then [p] else []) + WithDate(ps[1..], d)
    ensures SortedByDateDesc([ps[0]] + t)
    ensures multiset([ps[0]] + t) == multiset(ps) + multiset{p}
    ensures forall d :: WithDate([ps[0]] + t, d) == (if p.date == d then [p] else []) + WithDate(ps, d)
  {
    BehindSorted(p, ps, t);
    assert ps == [ps[0]] + ps[1..];
    forall d ensures WithDate([ps[0]] + t, d) == (if p.date == d then [p] else []) + WithDate(ps, d) {
      BehindWithDate(p, ps, t, d);
    }
  }

  /** Every post of `t` is no newer than the head of `ps`, so the head can go first. */
  lemma BehindSorted(p: PostMeta, ps: seq<PostMeta>, t: seq<PostMeta>)
    requires SortedByDateDesc(ps) && ps != [] && !LessEq(ps[0].date, p.date)
    requires SortedByDateDesc(t) && multiset(t) == multiset(ps[1..]) + multiset{p}
    ensures SortedByDateDesc([ps[0]] + t)
  {
    LessEqTotal(ps[0].date, p.date);
    forall k | 0 <= k < |t| ensures LessEq(t[k].date, ps[0].date) {
      assert t[k] in multiset(t);
      if t[k] != p {
        assert t[k] in ps[1..];
      }
    }
  }

  lemma BehindWithDate(p: PostMeta, ps: seq<PostMeta>, t: seq<PostMeta>, d: string)
    requires ps != [] && !LessEq(ps[0].date, p.date)
    requires WithDate(t, d) == (if p.date == d then [p] else []) + WithDate(ps[1..], d)
    ensures WithDate([ps[0]] + t, d) == (if p.date == d then [p] else []) + WithDate(ps, d)
  {
    var x := if ps[0].date == d then [ps[0]] else [];
    var y := if p.date == d then [p] else [];
    var w := WithDate(ps[1..], d);
    assert ([ps[0]] + t)[1..] == t;
    assert WithDate([ps[0]] + t, d) == x + (y + w);
    assert WithDate(ps, d) == x + w;
    if ps[0].date == d {
      // p is strictly older than ps[0], so it does not share the date d.
      assert p.date != d by {
        if p.date == d { LessEqTotal(d, d); }
      }
      assert x + (y + w) == y + (x + w);
    } else {
      assert x + (y + w) == y + (x + w);
    }
  }

  /**
   * `sort((a, b) => b.date.localeCompare(a.date))`: a stable sort by date,
   * newest first.
   */
  function SortByDateDesc(ps: seq<PostMeta>): (r: seq<PostMeta>)
    ensures SortedByDateDesc(r)
    ensures multiset(r) == multiset(ps)
    ensures |r| == |ps|
    ensures forall d :: WithDate(r, d) == WithDate(ps, d)
  {
    if ps == [] then []
    else
      assert ps == [ps[0]] + ps[1..];
      InsertByDate(ps[0], SortByDateDesc(ps[1..]))
  }

  /**
   * `getAllPosts()` over the given directory: the metadata of the `.mdx`
   * files, newest first.
   */
  function GetAllPosts(files: seq<PostFile>): (r: seq<PostMeta>)
    ensures SortedByDateDesc(r)
    ensures multiset(r) == multiset(MapMeta(FilterMdx(files)))
    ensures |r| == |FilterMdx(files)|
  {
    SortByDateDesc(MapMeta(FilterMdx(files)))
  }

  /**
   * The loaded posts are exactly the metadata of the `.mdx` files, one post per
   * such file; the order is the one SortByDateDesc promises.
   */
  lemma GetAllPostsMembers(files: seq<PostFile>)
    ensures |GetAllPosts(files)| == |FilterMdx(files)|
    ensures forall p :: p in GetAllPosts(files) <==> exists f :: f in files && IsMdx(f.name) && p == ToMeta(f)
  {
    forall p | p in GetAllPosts(files) ensures exists f :: f in files && IsMdx(f.name) && p == ToMeta(f) {
      ListedPostHasFile(files, p);
    }
    forall f | f in files && IsMdx(f.name) ensures ToMeta(f) in GetAllPosts(files) {
      FileHasListedPost(files, f);
    }
  }

  lemma ListedPostHasFile(files: seq<PostFile>, p: PostMeta)
    requires p in GetAllPosts(files)
    ensures exists f :: f in files && IsMdx(f.name) && p == ToMeta(f)
  {
    var fs := FilterMdx(files);
    var m := MapMeta(fs);
    assert p in multiset(GetAllPosts(files));
    assert p in multiset(m);
    var i :| 0 <= i < |m| && m[i] == p;
    assert fs[i] in fs;
  }

  lemma FileHasListedPost(files: seq<PostFile>, f: PostFile)
    requires f in files && IsMdx(f.name)
    ensures ToMeta(f) in GetAllPosts(files)
  {
    var fs := FilterMdx(files);
    var m := MapMeta(fs);
    var i :| 0 <= i < |fs| && fs[i] == f;
    assert m[i] == ToMeta(f);
    assert ToMeta(f) in multiset(m);
    assert ToMeta(f) in multiset(GetAllPosts(files));
  }

  /** A file's slug gives back its name: different `.mdx` files get different slugs. */
  lemma SlugsDiffer(a: string, b: string)
    requires IsMdx(a) && IsMdx(b) && a != b
    ensures Slug(a) != Slug(b)
  {
  }
}
