/**
 * The per-article threaded comment store of src/components/CommentSection.tsx:
 * the comment tree, its three mutations (add a root comment, add a reply,
 * like), loading with timestamp rehydration and seed data, whole-tree saving
 * to the slot "comments-<slug>", and the relative-time formatter.
 *
 * The clock (`Date.now()`, `new Date()`) and the UI language are parameters.
 */
module Comments {
  import opened Wrappers
  import opened Strings
  import opened LanguageDetector

  // ---------------------------------------------------------------------------
  // Time values
  // ---------------------------------------------------------------------------

  const MsPerMinute: int := 60_000
  const MsPerHour: int := 3_600_000
  const MsPerDay: int := 86_400_000

  /** Largest magnitude of a JavaScript time value: 8.64e15 ms on either side of the epoch. */
  const MaxTimeValue: int := 8_640_000_000_000_000

  /** `new Date(ms)`: the time value, or None for an Invalid Date (its `getTime()` is NaN). */
  function MakeDate(ms: int): Option<int> {
    if -MaxTimeValue <= ms <= MaxTimeValue then Some(ms) else None
  }

  predicate ValidTime(t: Option<int>) {
    t.Some? && -MaxTimeValue <= t.value <= MaxTimeValue
  }

  // ---------------------------------------------------------------------------
  // The comment tree
  // ---------------------------------------------------------------------------

  /**
   * A comment. `timestamp` is a Date: its time value, None when invalid.
   * `parentId` is present only on replies.
   */
  datatype Comment = Comment(
    id: string,
    author: string,
    email: string,
    content: string,
    timestamp: Option<int>,
    likes: int,
    replies: seq<Comment>,
    parentId: Option<string>)

  /** The localized strings the store itself uses. */
  datatype UiText = UiText(
    guest: string,
    timeJustNow: string,
    timeMinutesAgo: string,
    timeHoursAgo: string,
    timeDaysAgo: string,
    timeUnknown: string)

  function Texts(lang: Lang): UiText {
    match lang
    case En => UiText("Guest", "Just now", "minutes ago", "hours ago", "days ago", "Unknown time")
    case Zh => UiText("訪客", "剛剛", "分鐘前", "小時前", "天前", "時間未知")
  }

  /** The two-level shape the mutations build: roots without a parent, replies naming their root and having no replies. */
  predicate WellFormed(cs: seq<Comment>) {
    forall i :: 0 <= i < |cs| ==> cs[i].parentId.None? && RepliesOf(cs[i].replies, cs[i].id)
  }

  predicate RepliesOf(rs: seq<Comment>, rootId: string) {
    forall j :: 0 <= j < |rs| ==> rs[j].parentId == Some(rootId) && rs[j].replies == []
  }

  /** Ids of a list of comments, in order. */
  function IdsOf(rs: seq<Comment>): (ids: seq<string>)
    ensures |ids| == |rs| && forall j :: 0 <= j < |rs| ==> ids[j] == rs[j].id
  {
    if rs == [] then [] else [rs[0].id] + IdsOf(rs[1..])
  }

  /** Every root id followed by the ids of its replies, root after root. */
  function AllIds(cs: seq<Comment>): seq<string> {
    if cs == [] then [] else [cs[0].id] + IdsOf(cs[0].replies) + AllIds(cs[1..])
  }

  /** No two comments of the tree (roots and replies) share an id. */
  predicate UniqueIds(cs: seq<Comment>) {
    Distinct(AllIds(cs))
  }

  /** Every root id is among the tree's ids. */
  lemma {:induction false} RootIdsInAllIds(cs: seq<Comment>, i: int)
    requires 0 <= i < |cs|
    ensures multiset(AllIds(cs))[cs[i].id] >= 1
  {
    var head := [cs[0].id] + IdsOf(cs[0].replies);
    assert AllIds(cs) == head + AllIds(cs[1..]);
    assert multiset(AllIds(cs)) == multiset(head) + multiset(AllIds(cs[1..]));
    if i == 0 {
      assert head[0] == cs[0].id;
      assert cs[0].id in multiset(head);
    } else {
      RootIdsInAllIds(cs[1..], i - 1);
      assert cs[1..][i - 1] == cs[i];
    }
  }

  /** Number of roots with the given id. */
  function RootCount(cs: seq<Comment>, id: string): nat {
    if cs == [] then 0 else (if cs[0].id == id then 1 else 0) + RootCount(cs[1..], id)
  }

  lemma {:induction false} RootCountBelowIdCount(cs: seq<Comment>, id: string)
    ensures RootCount(cs, id) <= multiset(AllIds(cs))[id]
  {
    if cs != [] { RootCountBelowIdCount(cs[1..], id); }
  }

  lemma {:induction false} RootCountPositive(cs: seq<Comment>, i: int)
    requires 0 <= i < |cs|
    ensures RootCount(cs, cs[i].id) >= 1
  {
    if i > 0 { RootCountPositive(cs[1..], i - 1); }
  }

  // ---------------------------------------------------------------------------
  // Adding a root comment (handleSubmitComment)
  // ---------------------------------------------------------------------------

  /** The `newComment` form state. */
  datatype Draft = Draft(author: string, email: string, content: string)

  const EmptyDraft: Draft := Draft("", "", "")

  /** The comment a successful submission builds at clock `now`. */
  function NewRootComment(d: Draft, now: int): Comment {
    Comment(IntToString(now), Trim(d.author), Trim(d.email), Trim(d.content), MakeDate(now), 0, [], None)
  }

  /**
   * The tree after submitting `d` at clock `now`, or None when the submission is
   * rejected because the author or the content is blank.
   */
  function AddRootComment(cs: seq<Comment>, d: Draft, now: int): (r: Option<seq<Comment>>)
    ensures r.None? <==> AllWhitespace(d.author) || AllWhitespace(d.content)
    ensures r.Some? ==> |r.value| == |cs| + 1 && r.value[1..] == cs
    ensures r.Some? ==>
      var c := r.value[0];
      && c.id == IntToString(now)
      && c.author == Trim(d.author) && c.author != ""
      && c.email == Trim(d.email)
      && c.content == Trim(d.content) && c.content != ""
      && c.timestamp == MakeDate(now)
      && c.likes == 0 && c.replies == [] && c.parentId.None?
  {
    TrimEmptyIff(d.author);
    TrimEmptyIff(d.content);
    if Trim(d.author) == "" || Trim(d.content) == "" then None
    else Some([NewRootComment(d, now)] + cs)
  }

  /** A successful root submission keeps the tree two-level. */
  lemma AddRootKeepsWellFormed(cs: seq<Comment>, d: Draft, now: int)
    requires WellFormed(cs)
    ensures var r := AddRootComment(cs, d, now); r.Some? ==> WellFormed(r.value)
  {
    var c := NewRootComment(d, now);
    if AddRootComment(cs, d, now).Some? {
      assert AddRootComment(cs, d, now).value == [c] + cs;
      WellFormedCons(c, cs);
    }
  }

  /** A root without a parent and with well-formed replies can go in front of a well-formed tree. */
  lemma WellFormedCons(c: Comment, cs: seq<Comment>)
    requires c.parentId.None? && RepliesOf(c.replies, c.id) && WellFormed(cs)
    ensures WellFormed([c] + cs)
  {
    forall i | 0 <= i < |[c] + cs|
      ensures ([c] + cs)[i].parentId.None? && RepliesOf(([c] + cs)[i].replies, ([c] + cs)[i].id)
    {
      if i > 0 { assert ([c] + cs)[i] == cs[i - 1]; }
    }
  }

  /** Ids stay unique after a root submission exactly when the clock's id is not taken yet. */
  lemma AddRootKeepsUniqueIds(cs: seq<Comment>, d: Draft, now: int)
    requires UniqueIds(cs)
    requires AddRootComment(cs, d, now).Some?
    ensures UniqueIds(AddRootComment(cs, d, now).value) <==> IntToString(now) !in AllIds(cs)
  {
    var c := NewRootComment(d, now);
    assert AddRootComment(cs, d, now).value == [c] + cs;
    AllIdsOfLeaf(c, cs);
    DistinctCons(c.id, AllIds(cs));
  }

  /** A comment without replies adds just its own id in front. */
  lemma AllIdsOfLeaf(c: Comment, cs: seq<Comment>)
    requires c.replies == []
    ensures AllIds([c] + cs) == [c.id] + AllIds(cs)
  {
    assert ([c] + cs)[1..] == cs;
  }

  /** Submissions at different clock values get different ids. */
  lemma RootIdsDiffer(d1: Draft, d2: Draft, t1: int, t2: int)
    requires t1 != t2
    ensures NewRootComment(d1, t1).id != NewRootComment(d2, t2).id
  {
    IntToStringInjective(t1, t2);
  }

  // ---------------------------------------------------------------------------
  // Adding a reply (handleSubmitReply)
  // ---------------------------------------------------------------------------

  /** Id of a reply to `parentId` made at clock `now`. */
  function ReplyId(parentId: string, now: int): string {
    parentId + "-" + IntToString(now)
  }

  /** The reply built for root `parentId`: guest author, empty email, no likes, no replies. */
  function NewReply(parentId: string, content: string, lang: Lang, now: int): Comment {
    Comment(ReplyId(parentId, now), Texts(lang).guest, "", Trim(content), MakeDate(now), 0, [], Some(parentId))
  }

  /** One root after a reply to `parentId` has been offered to it. */
  function AppendReplyTo(c: Comment, parentId: string, reply: Comment): Comment {
    if c.id == parentId then c.(replies := c.replies + [reply]) else c
  }

  function AppendReplyAll(cs: seq<Comment>, parentId: string, reply: Comment): (r: seq<Comment>)
    ensures |r| == |cs| && forall i :: 0 <= i < |cs| ==> r[i] == AppendReplyTo(cs[i], parentId, reply)
  {
    if cs == [] then [] else [AppendReplyTo(cs[0], parentId, reply)] + AppendReplyAll(cs[1..], parentId, reply)
  }

  /**
   * The tree after replying `content` to root `parentId`, or None when the content
   * is blank. The reply goes at the end of every root whose id is `parentId`;
   * other roots are untouched; with no such root the tree is unchanged.
   */
  function AddReply(cs: seq<Comment>, parentId: string, content: string, lang: Lang, now: int): (r: Option<seq<Comment>>)
    ensures r.None? <==> AllWhitespace(content)
    ensures r.Some? ==> |r.value| == |cs|
    ensures r.Some? ==> forall i :: 0 <= i < |cs| && cs[i].id != parentId ==> r.value[i] == cs[i]
    ensures r.Some? ==> forall i :: 0 <= i < |cs| && cs[i].id == parentId ==>
      r.value[i].replies == cs[i].replies + [NewReply(parentId, content, lang, now)]
      && r.value[i] == cs[i].(replies := r.value[i].replies)
    ensures r.Some? && (forall i :: 0 <= i < |cs| ==> cs[i].id != parentId) ==> r.value == cs
  {
    TrimEmptyIff(content);
    if Trim(content) == "" then None
    else Some(AppendReplyAll(cs, parentId, NewReply(parentId, content, lang, now)))
  }

  /** The reply's fields as the handler builds them. */
  lemma NewReplyShape(parentId: string, content: string, lang: Lang, now: int)
    requires !AllWhitespace(content)
    ensures var c := NewReply(parentId, content, lang, now);
      && c.parentId == Some(parentId)
      && c.author == Texts(lang).guest && c.email == ""
      && c.content != "" && c.content == Trim(content)
      && c.likes == 0 && c.replies == []
      && c.id == parentId + "-" + IntToString(now)
  {
    TrimEmptyIff(content);
  }

  /** A reply keeps the tree two-level. */
  lemma AddReplyKeepsWellFormed(cs: seq<Comment>, parentId: string, content: string, lang: Lang, now: int)
    requires WellFormed(cs)
    ensures var r := AddReply(cs, parentId, content, lang, now); r.Some? ==> WellFormed(r.value)
  {
    var r := AddReply(cs, parentId, content, lang, now);
    if r.Some? {
      var reply := NewReply(parentId, content, lang, now);
      forall i | 0 <= i < |r.value| ensures r.value[i].parentId.None? && RepliesOf(r.value[i].replies, r.value[i].id) {
        if cs[i].id == parentId {
          AppendedReplyOf(cs[i].replies, cs[i].id, reply);
        }
      }
    }
  }

  /** A reply naming the root and without replies of its own keeps the root's replies well-formed. */
  lemma AppendedReplyOf(rs: seq<Comment>, rootId: string, reply: Comment)
    requires RepliesOf(rs, rootId) && reply.parentId == Some(rootId) && reply.replies == []
    ensures RepliesOf(rs + [reply], rootId)
  {
  }

  /** Offering the reply to one root adds its id among that root's reply ids when the root matches. */
  lemma AppendReplyToIds(c: Comment, parentId: string, reply: Comment, x: string)
    ensures AppendReplyTo(c, parentId, reply).id == c.id
    ensures multiset(IdsOf(AppendReplyTo(c, parentId, reply).replies))[x]
      == multiset(IdsOf(c.replies))[x] + (if x == reply.id && c.id == parentId then 1 else 0)
  {
    if c.id == parentId {
      assert IdsOf(c.replies + [reply]) == IdsOf(c.replies) + [reply.id];
    }
  }

  /** Appending the reply adds its id once per matching root and keeps every other id count. */
  lemma {:induction false} AppendReplyIdCounts(cs: seq<Comment>, parentId: string, reply: Comment, x: string)
    ensures multiset(AllIds(AppendReplyAll(cs, parentId, reply)))[x]
      == multiset(AllIds(cs))[x] + (if x == reply.id then RootCount(cs, parentId) else 0)
  {
    if cs != [] {
      AppendReplyIdCounts(cs[1..], parentId, reply, x);
      var r := AppendReplyAll(cs, parentId, reply);
      assert r[1..] == AppendReplyAll(cs[1..], parentId, reply);
      assert AllIds(r) == [r[0].id] + IdsOf(r[0].replies) + AllIds(r[1..]);
      assert AllIds(cs) == [cs[0].id] + IdsOf(cs[0].replies) + AllIds(cs[1..]);
      AppendReplyToIds(cs[0], parentId, reply, x);
    }
  }

  /** With unique ids and a reply id not yet in the tree, ids stay unique. */
  lemma AddReplyKeepsUniqueIds(cs: seq<Comment>, parentId: string, content: string, lang: Lang, now: int)
    requires UniqueIds(cs)
    requires ReplyId(parentId, now) !in AllIds(cs)
    ensures var r := AddReply(cs, parentId, content, lang, now); r.Some? ==> UniqueIds(r.value)
  {
    var r := AddReply(cs, parentId, content, lang, now);
    if r.Some? {
      var reply := NewReply(parentId, content, lang, now);
      forall x ensures multiset(AllIds(r.value))[x] <= 1 {
        AppendReplyIdCounts(cs, parentId, reply, x);
        DistinctCountAtMostOne(AllIds(cs), x);
        RootCountBelowIdCount(cs, parentId);
        DistinctCountAtMostOne(AllIds(cs), parentId);
      }
      CountAtMostOneDistinct(AllIds(r.value));
    }
  }

  /** Replies to the same root at different clock values get different ids. */
  lemma ReplyIdsDiffer(parentId: string, t1: int, t2: int)
    requires t1 != t2
    ensures ReplyId(parentId, t1) != ReplyId(parentId, t2)
  {
    var p := parentId + "-";
    if ReplyId(parentId, t1) == ReplyId(parentId, t2) {
      assert ReplyId(parentId, t1)[|p|..] == IntToString(t1);
      assert ReplyId(parentId, t2)[|p|..] == IntToString(t2);
      IntToStringInjective(t1, t2);
    }
  }

  /** A reply id to a non-empty root id never equals a root id made from the clock. */
  lemma RootAndReplyIdsDiffer(parentId: string, t1: int, t2: int)
    requires parentId != ""
    ensures IntToString(t1) != ReplyId(parentId, t2)
  {
    var s := ReplyId(parentId, t2);
    assert s[|parentId|] == '-';
    assert |parentId| >= 1;
    if |IntToString(t1)| == |s| {
      assert !IsDigit('-');
    }
  }

  // ---------------------------------------------------------------------------
  // Liking (handleLike)
  // ---------------------------------------------------------------------------

  /** JavaScript truthiness of an optional string: present and non-empty. */
  predicate Truthy(p: Option<string>) {
    p.Some? && p.value != ""
  }

  /** The root whose replies are searched: `isReply && parentId && comment.id === parentId`. */
  predicate IsTargetParent(c: Comment, isReply: bool, parentId: Option<string>) {
    isReply && Truthy(parentId) && c.id == parentId.value
  }

  /** Whether the root itself is liked: the `else if (comment.id === commentId)` branch. */
  predicate IsRootTarget(c: Comment, commentId: string, isReply: bool, parentId: Option<string>) {
    !IsTargetParent(c, isReply, parentId) && c.id == commentId
  }

  function LikeReplies(rs: seq<Comment>, commentId: string): (r: seq<Comment>)
    ensures |r| == |rs|
    ensures forall j :: 0 <= j < |rs| ==>
      r[j] == rs[j].(likes := rs[j].likes + (if rs[j].id == commentId then 1 else 0))
  {
    if rs == [] then []
    else
      var head := if rs[0].id == commentId then rs[0].(likes := rs[0].likes + 1) else rs[0];
      [head] + LikeReplies(rs[1..], commentId)
  }

  function LikeRoot(c: Comment, commentId: string, isReply: bool, parentId: Option<string>): Comment {
    if IsTargetParent(c, isReply, parentId) then c.(replies := LikeReplies(c.replies, commentId))
    else if c.id == commentId then c.(likes := c.likes + 1)
    else c
  }

  /**
   * The tree after `handleLike(commentId, isReply, parentId)`: one more like on
   * each matching reply under the root `parentId` (when `isReply` and `parentId`
   * is truthy), otherwise on each root with id `commentId`. Lengths, order and
   * every other field stay as they were.
   */
  function Like(cs: seq<Comment>, commentId: string, isReply: bool, parentId: Option<string>): (r: seq<Comment>)
    ensures |r| == |cs|
    ensures forall i :: 0 <= i < |cs| ==>
      && r[i].likes == cs[i].likes + (if IsRootTarget(cs[i], commentId, isReply, parentId) then 1 else 0)
      && |r[i].replies| == |cs[i].replies|
      && r[i] == cs[i].(likes := r[i].likes, replies := r[i].replies)
    ensures forall i, j :: 0 <= i < |cs| && 0 <= j < |cs[i].replies| ==>
      var hit := IsTargetParent(cs[i], isReply, parentId) && cs[i].replies[j].id == commentId;
      r[i].replies[j] == cs[i].replies[j].(likes := cs[i].replies[j].likes + (if hit then 1 else 0))
  {
    if cs == [] then [] else [LikeRoot(cs[0], commentId, isReply, parentId)] + Like(cs[1..], commentId, isReply, parentId)
  }

  /** Sum of the likes of a list of replies. */
  function ReplyLikes(rs: seq<Comment>): int {
    if rs == [] then 0 else rs[0].likes + ReplyLikes(rs[1..])
  }

  /** Sum of the likes of all roots and their replies. */
  function TotalLikes(cs: seq<Comment>): int {
    if cs == [] then 0 else cs[0].likes + ReplyLikes(cs[0].replies) + TotalLikes(cs[1..])
  }

  /** Number of replies with the given id. */
  function CountId(rs: seq<Comment>, id: string): nat {
    if rs == [] then 0 else (if rs[0].id == id then 1 else 0) + CountId(rs[1..], id)
  }

  /** How many comments one like operation reaches in one root. */
  function HitsIn(c: Comment, commentId: string, isReply: bool, parentId: Option<string>): nat {
    if IsTargetParent(c, isReply, parentId) then CountId(c.replies, commentId)
    else if c.id == commentId then 1
    else 0
  }

  function Hits(cs: seq<Comment>, commentId: string, isReply: bool, parentId: Option<string>): nat {
    if cs == [] then 0 else HitsIn(cs[0], commentId, isReply, parentId) + Hits(cs[1..], commentId, isReply, parentId)
  }

  lemma {:induction false} LikeRepliesTotal(rs: seq<Comment>, commentId: string)
    ensures ReplyLikes(LikeReplies(rs, commentId)) == ReplyLikes(rs) + CountId(rs, commentId)
  {
    if rs != [] {
      LikeRepliesTotal(rs[1..], commentId);
      assert LikeReplies(rs, commentId)[1..] == LikeReplies(rs[1..], commentId);
    }
  }

  /** A like raises the total number of likes by exactly the number of comments it reaches. */
  lemma {:induction false} LikeTotal(cs: seq<Comment>, commentId: string, isReply: bool, parentId: Option<string>)
    ensures TotalLikes(Like(cs, commentId, isReply, parentId))
      == TotalLikes(cs) + Hits(cs, commentId, isReply, parentId)
  {
    if cs != [] {
      LikeTotal(cs[1..], commentId, isReply, parentId);
      LikeRepliesTotal(cs[0].replies, commentId);
      var r := Like(cs, commentId, isReply, parentId);
      assert r[1..] == Like(cs[1..], commentId, isReply, parentId);
    }
  }

  lemma {:induction false} CountIdIsIdCount(rs: seq<Comment>, id: string)
    ensures CountId(rs, id) == multiset(IdsOf(rs))[id]
  {
    if rs != [] {
      CountIdIsIdCount(rs[1..], id);
      assert IdsOf(rs) == [rs[0].id] + IdsOf(rs[1..]);
    }
  }

  lemma {:induction false} HitsBelowIdCount(cs: seq<Comment>, commentId: string, isReply: bool, parentId: Option<string>)
    ensures Hits(cs, commentId, isReply, parentId) <= multiset(AllIds(cs))[commentId]
  {
    if cs != [] {
      HitsBelowIdCount(cs[1..], commentId, isReply, parentId);
      CountIdIsIdCount(cs[0].replies, commentId);
    }
  }

  /**
   * Some comment is reached by the like: a reply with id `commentId` under the
   * root named by a truthy `parentId` (when `isReply`), or a root with id
   * `commentId` that is not that root.
   */
  predicate TargetExists(cs: seq<Comment>, commentId: string, isReply: bool, parentId: Option<string>) {
    || (exists i, j :: 0 <= i < |cs| && 0 <= j < |cs[i].replies|
          && IsTargetParent(cs[i], isReply, parentId) && cs[i].replies[j].id == commentId)
    || (exists i :: 0 <= i < |cs| && IsRootTarget(cs[i], commentId, isReply, parentId))
  }

  lemma {:induction false} CountIdPositive(rs: seq<Comment>, j: int)
    requires 0 <= j < |rs|
    ensures CountId(rs, rs[j].id) >= 1
  {
    if j > 0 { CountIdPositive(rs[1..], j - 1); }
  }

  lemma {:induction false} HitsPositive(cs: seq<Comment>, commentId: string, isReply: bool, parentId: Option<string>, i: int)
    requires 0 <= i < |cs| && HitsIn(cs[i], commentId, isReply, parentId) >= 1
    ensures Hits(cs, commentId, isReply, parentId) >= 1
  {
    if i > 0 { HitsPositive(cs[1..], commentId, isReply, parentId, i - 1); }
  }

  lemma {:induction false} CountIdWitness(rs: seq<Comment>, id: string) returns (j: int)
    requires CountId(rs, id) >= 1
    ensures 0 <= j < |rs| && rs[j].id == id
  {
    if rs[0].id == id {
      j := 0;
    } else {
      j := CountIdWitness(rs[1..], id);
      j := j + 1;
    }
  }

  /** A like that reaches some comment was aimed at an existing one. */
  lemma {:induction false} HitsMeanTargetExists(cs: seq<Comment>, commentId: string, isReply: bool, parentId: Option<string>)
    requires Hits(cs, commentId, isReply, parentId) >= 1
    ensures TargetExists(cs, commentId, isReply, parentId)
  {
    if HitsIn(cs[0], commentId, isReply, parentId) >= 1 {
      if IsTargetParent(cs[0], isReply, parentId) {
        var j := CountIdWitness(cs[0].replies, commentId);
        assert cs[0].replies[j].id == commentId;
      } else {
        assert IsRootTarget(cs[0], commentId, isReply, parentId);
      }
    } else {
      HitsMeanTargetExists(cs[1..], commentId, isReply, parentId);
      var t := cs[1..];
      if exists i, j :: 0 <= i < |t| && 0 <= j < |t[i].replies|
          && IsTargetParent(t[i], isReply, parentId) && t[i].replies[j].id == commentId {
        var i, j :| 0 <= i < |t| && 0 <= j < |t[i].replies|
          && IsTargetParent(t[i], isReply, parentId) && t[i].replies[j].id == commentId;
        assert cs[i + 1] == t[i];
      } else {
        var i :| 0 <= i < |t| && IsRootTarget(t[i], commentId, isReply, parentId);
        assert cs[i + 1] == t[i];
      }
    }
  }

  /**
   * In a tree with unique ids, liking an existing comment adds exactly one like
   * in total; liking a missing one changes nothing.
   */
  lemma LikeAddsExactlyOne(cs: seq<Comment>, commentId: string, isReply: bool, parentId: Option<string>)
    requires UniqueIds(cs)
    ensures TargetExists(cs, commentId, isReply, parentId) ==>
      TotalLikes(Like(cs, commentId, isReply, parentId)) == TotalLikes(cs) + 1
    ensures !TargetExists(cs, commentId, isReply, parentId) ==> Like(cs, commentId, isReply, parentId) == cs
  {
    if TargetExists(cs, commentId, isReply, parentId) {
      TargetMeansHits(cs, commentId, isReply, parentId);
      LikeTotal(cs, commentId, isReply, parentId);
      HitsBelowIdCount(cs, commentId, isReply, parentId);
      DistinctCountAtMostOne(AllIds(cs), commentId);
    } else {
      assert Hits(cs, commentId, isReply, parentId) == 0 by {
        if Hits(cs, commentId, isReply, parentId) >= 1 {
          HitsMeanTargetExists(cs, commentId, isReply, parentId);
        }
      }
      LikeMissChangesNothing(cs, commentId, isReply, parentId);
    }
  }

  /** A like aimed at an existing comment reaches at least one. */
  lemma TargetMeansHits(cs: seq<Comment>, commentId: string, isReply: bool, parentId: Option<string>)
    requires TargetExists(cs, commentId, isReply, parentId)
    ensures Hits(cs, commentId, isReply, parentId) >= 1
  {
    if exists i, j :: 0 <= i < |cs| && 0 <= j < |cs[i].replies|
        && IsTargetParent(cs[i], isReply, parentId) && cs[i].replies[j].id == commentId {
      var i, j :| 0 <= i < |cs| && 0 <= j < |cs[i].replies|
        && IsTargetParent(cs[i], isReply, parentId) && cs[i].replies[j].id == commentId;
      CountIdPositive(cs[i].replies, j);
      HitsPositive(cs, commentId, isReply, parentId, i);
    } else {
      var i :| 0 <= i < |cs| && IsRootTarget(cs[i], commentId, isReply, parentId);
      HitsPositive(cs, commentId, isReply, parentId, i);
    }
  }

  /** A like that reaches no comment leaves the tree as it was. */
  lemma {:induction false} LikeMissChangesNothing(cs: seq<Comment>, commentId: string, isReply: bool, parentId: Option<string>)
    requires Hits(cs, commentId, isReply, parentId) == 0
    ensures Like(cs, commentId, isReply, parentId) == cs
  {
    if cs != [] {
      LikeMissChangesNothing(cs[1..], commentId, isReply, parentId);
      if IsTargetParent(cs[0], isReply, parentId) {
        LikeRepliesUnchanged(cs[0].replies, commentId);
      }
    }
  }

  lemma {:induction false} LikeRepliesUnchanged(rs: seq<Comment>, commentId: string)
    requires CountId(rs, commentId) == 0
    ensures LikeReplies(rs, commentId) == rs
  {
    if rs != [] { LikeRepliesUnchanged(rs[1..], commentId); }
  }

  /** A like keeps the ids, the shape and the two-level form of the tree. */
  lemma LikeKeepsShape(cs: seq<Comment>, commentId: string, isReply: bool, parentId: Option<string>)
    ensures AllIds(Like(cs, commentId, isReply, parentId)) == AllIds(cs)
    ensures WellFormed(cs) ==> WellFormed(Like(cs, commentId, isReply, parentId))
  {
    LikeKeepsIds(cs, commentId, isReply, parentId);
    if WellFormed(cs) {
      var r := Like(cs, commentId, isReply, parentId);
      forall i | 0 <= i < |r| ensures r[i].parentId.None? && RepliesOf(r[i].replies, r[i].id) {
        assert RepliesOf(cs[i].replies, cs[i].id);
        forall j | 0 <= j < |r[i].replies| ensures r[i].replies[j].parentId == Some(r[i].id) && r[i].replies[j].replies == [] {
          assert r[i].replies[j].parentId == cs[i].replies[j].parentId;
        }
      }
    }
  }

  lemma {:induction false} LikeKeepsIds(cs: seq<Comment>, commentId: string, isReply: bool, parentId: Option<string>)
    ensures AllIds(Like(cs, commentId, isReply, parentId)) == AllIds(cs)
  {
    if cs != [] {
      LikeKeepsIds(cs[1..], commentId, isReply, parentId);
      var r := Like(cs, commentId, isReply, parentId);
      assert r[1..] == Like(cs[1..], commentId, isReply, parentId);
      assert r[0].id == cs[0].id;
      assert IdsOf(r[0].replies) == IdsOf(cs[0].replies);
    }
  }

  // ---------------------------------------------------------------------------
  // Persistence: JSON form, saving, loading, seed data
  // ---------------------------------------------------------------------------

  /** A stored `timestamp`: the ISO-8601 string of a time value, JSON `null`, or no field. */
  datatype StoredTime = IsoString(ms: int) | JsonNull | Missing

  /** A stored `replies` field: an array, or absent / `null` (both falsy). */
  datatype StoredReplies = NoReplies | Replies(items: seq<StoredComment>)

  /** A comment as `JSON.parse` returns it. */
  datatype StoredComment = StoredComment(
    id: string,
    author: string,
    email: string,
    content: string,
    timestamp: StoredTime,
    likes: int,
    replies: StoredReplies,
    parentId: Option<string>)

  /** The text in a `localStorage` slot: a JSON array of comments, the empty string, or text `JSON.parse` rejects. */
  datatype Slot = Json(roots: seq<StoredComment>) | EmptyString | Corrupt

  /** The key of a post's slot. */
  function StorageKey(postSlug: string): string {
    "comments-" + postSlug
  }

  /** Different posts use different slots. */
  lemma StorageKeysDiffer(a: string, b: string)
    requires a != b
    ensures StorageKey(a) != StorageKey(b)
  {
    assert StorageKey(a)[|"comments-"|..] == a;
    assert StorageKey(b)[|"comments-"|..] == b;
  }

  /** `Date.prototype.toJSON`: the ISO string of a valid date, `null` for an Invalid Date. */
  function DateToJson(t: Option<int>): StoredTime {
    match t
    case Some(ms) => IsoString(ms)
    case None => JsonNull
  }

  /** `new Date(v)` on a stored value: `new Date(null)` is the epoch, `new Date(undefined)` is invalid. */
  function DateFromJson(v: StoredTime): Option<int> {
    match v
    case IsoString(ms) => MakeDate(ms)
    case JsonNull => Some(0)
    case Missing => None
  }

  /** `JSON.stringify` of a list of comments: every level, every date through `toJSON`. */
  function SerializeAll(cs: seq<Comment>): (r: seq<StoredComment>)
    ensures |r| == |cs|
    ensures forall i :: 0 <= i < |cs| ==>
      && r[i].id == cs[i].id && r[i].author == cs[i].author
      && r[i].email == cs[i].email && r[i].content == cs[i].content
      && r[i].likes == cs[i].likes && r[i].parentId == cs[i].parentId
      && r[i].timestamp == DateToJson(cs[i].timestamp)
      && r[i].replies == Replies(SerializeAll(cs[i].replies))
    decreases cs
  {
    if cs == [] then [] else [Serialize(cs[0])] + SerializeAll(cs[1..])
  }

  function Serialize(c: Comment): StoredComment
    decreases c
  {
    StoredComment(c.id, c.author, c.email, c.content, DateToJson(c.timestamp), c.likes,
                  Replies(SerializeAll(c.replies)), c.parentId)
  }

  /** `processComments`: rehydrate every timestamp at every depth, default absent replies to []. */
  function ProcessAll(items: seq<StoredComment>): (r: seq<Comment>)
    ensures |r| == |items|
    ensures forall i :: 0 <= i < |items| ==>
      && r[i].id == items[i].id && r[i].author == items[i].author
      && r[i].email == items[i].email && r[i].content == items[i].content
      && r[i].likes == items[i].likes && r[i].parentId == items[i].parentId
      && r[i].timestamp == DateFromJson(items[i].timestamp)
      && r[i].replies == (if items[i].replies.Replies? then ProcessAll(items[i].replies.items) else [])
    decreases items
  {
    if items == [] then [] else [Process(items[0])] + ProcessAll(items[1..])
  }

  function Process(s: StoredComment): Comment
    decreases s
  {
    var replies := match s.replies case Replies(rs) => ProcessAll(rs) case NoReplies => [];
    Comment(s.id, s.author, s.email, s.content, DateFromJson(s.timestamp), s.likes, replies, s.parentId)
  }

  /** Every timestamp of the tree, at every depth, is a valid date. */
  predicate AllTimesValid(cs: seq<Comment>)
    decreases cs
  {
    cs == [] || (ValidTime(cs[0].timestamp) && AllTimesValid(cs[0].replies) && AllTimesValid(cs[1..]))
  }

  /** Saving and then loading gives back the same tree when every timestamp is valid. */
  lemma {:induction false} RoundTripAll(cs: seq<Comment>)
    requires AllTimesValid(cs)
    ensures ProcessAll(SerializeAll(cs)) == cs
    decreases cs
  {
    if cs != [] {
      RoundTrip(cs[0]);
      RoundTripAll(cs[1..]);
      assert SerializeAll(cs)[1..] == SerializeAll(cs[1..]);
    }
  }

  lemma {:induction false} RoundTrip(c: Comment)
    requires ValidTime(c.timestamp) && AllTimesValid(c.replies)
    ensures Process(Serialize(c)) == c
    decreases c
  {
    RoundTripAll(c.replies);
  }

  /** An Invalid Date is written as `null` and comes back as the epoch, not as an Invalid Date. */
  lemma InvalidDateReloadsAsEpoch(c: Comment)
    requires c.timestamp.None?
    ensures Process(Serialize(c)).timestamp == Some(0)
    ensures Process(Serialize(c)) != c
  {
  }

  /** The result of reading a slot: the tree, or the uncaught `JSON.parse` failure. */
  datatype LoadOutcome = Loaded(roots: seq<Comment>) | ParseError

  /** Contents of the three seed comments: Alice's and Charlie's roots and Bob's reply. */
  datatype SeedTexts = SeedTexts(alice: string, bob: string, charlie: string)

  function SeedTextsFor(lang: Lang): SeedTexts {
    if lang == En then
      SeedTexts(
        "Great article! Very clear explanation and very helpful to me. Especially the part about technical implementation, I learned a lot of new knowledge.",
        "Agreed! The author's writing style is very easy to understand.",
        "I have a small question. I encountered some difficulties in practical application. I wonder if the author has any related suggestions?")
    else
      SeedTexts(
        "這篇文章寫得很棒！解釋得很清楚，對我很有幫助。特別是關於技術實現的部分，讓我學到了很多新知識。",
        "同意！作者的寫作風格很容易理解。",
        "有一個小問題想請教，在實際應用中遇到了一些困難，不知道作者有沒有相關的建議？")
  }

  /** The seed tree with the given contents, dated relative to `now`. */
  function SeedFrom(now: int, texts: SeedTexts): seq<Comment> {
    [ Comment("1", "Alice Chen", "alice@example.com", texts.alice, MakeDate(now - 2 * MsPerHour), 5,
        [ Comment("1-1", "Bob Wang", "bob@example.com", texts.bob, MakeDate(now - MsPerHour), 2, [], Some("1")) ],
        None),
      Comment("2", "Charlie Liu", "charlie@example.com", texts.charlie, MakeDate(now - 30 * MsPerMinute), 1, [], None) ]
  }

  /**
   * The fixed comments shown for a post that has no slot yet, in the UI
   * language: two roots, the first with one reply, no id used twice.
   */
  function Seed(now: int, lang: Lang): (r: seq<Comment>)
    ensures |r| == 2 && |r[0].replies| == 1 && r[1].replies == []
    ensures WellFormed(r) && UniqueIds(r)
  {
    SeedShape(now, SeedTextsFor(lang));
    SeedWellFormed(now, SeedTextsFor(lang));
    SeedUniqueIds(now, SeedTextsFor(lang));
    SeedFrom(now, SeedTextsFor(lang))
  }

  /**
   * Reading the slot (null for no slot): no slot or an empty string gives the
   * seed, a JSON array is rehydrated, anything else is a parse error.
   */
  function LoadSlot(slot: Option<Slot>, now: int, lang: Lang): (r: LoadOutcome)
    ensures r.ParseError? <==> slot == Some(Corrupt)
    ensures slot.None? || slot == Some(EmptyString) ==> r == Loaded(Seed(now, lang))
    ensures slot.Some? && slot.value.Json? ==> r == Loaded(ProcessAll(slot.value.roots))
  {
    match slot
    case None => Loaded(Seed(now, lang))
    case Some(Json(items)) => Loaded(ProcessAll(items))
    case Some(EmptyString) => Loaded(Seed(now, lang))
    case Some(Corrupt) => ParseError
  }

  /** Loading a slot that a save wrote returns the saved tree when its timestamps are valid. */
  lemma SaveThenLoad(cs: seq<Comment>, now: int, lang: Lang)
    requires AllTimesValid(cs)
    ensures LoadSlot(Some(Json(SerializeAll(cs))), now, lang) == Loaded(cs)
  {
    RoundTripAll(cs);
  }

  // ---------------------------------------------------------------------------
  // Relative time (formatTime)
  // ---------------------------------------------------------------------------

  /** How long ago an instant was, bucketed as the formatter does. */
  datatype Age = Unknown | JustNow | MinutesAgo(minutes: int) | HoursAgo(hours: int) | DaysAgo(days: int) | Older

  /**
   * The bucketing of `formatTime`: `Math.floor` of the millisecond difference
   * divided by a minute, an hour and a day (Dafny's `/` floors for a positive
   * divisor), compared against 1, 60, 24 and 7.
   */
  function AgeOf(timestamp: Option<int>, now: int): (a: Age)
    ensures a.Unknown? <==> timestamp.None?
    ensures a.JustNow? <==> timestamp.Some? && now - timestamp.value < MsPerMinute
    ensures a.MinutesAgo? <==> timestamp.Some? && MsPerMinute <= now - timestamp.value < MsPerHour
    ensures a.HoursAgo? <==> timestamp.Some? && MsPerHour <= now - timestamp.value < MsPerDay
    ensures a.DaysAgo? <==> timestamp.Some? && MsPerDay <= now - timestamp.value < 7 * MsPerDay
    ensures a.Older? <==> timestamp.Some? && 7 * MsPerDay <= now - timestamp.value
    ensures a.MinutesAgo? ==>
      1 <= a.minutes < 60 && a.minutes * MsPerMinute <= now - timestamp.value < (a.minutes + 1) * MsPerMinute
    ensures a.HoursAgo? ==>
      1 <= a.hours < 24 && a.hours * MsPerHour <= now - timestamp.value < (a.hours + 1) * MsPerHour
    ensures a.DaysAgo? ==>
      1 <= a.days < 7 && a.days * MsPerDay <= now - timestamp.value < (a.days + 1) * MsPerDay
  {
    match timestamp
    case None => Unknown
    case Some(t) =>
      var diff := now - t;
      var minutes := diff / MsPerMinute;
      var hours := diff / MsPerHour;
      var days := diff / MsPerDay;
      if minutes < 1 then JustNow
      else if minutes < 60 then MinutesAgo(minutes)
      else if hours < 24 then HoursAgo(hours)
      else if days < 7 then DaysAgo(days)
      else Older
  }

  /** A label: localized text, or `toLocaleDateString(locale)` of a time value. */
  datatype TimeLabel = Phrase(text: string) | LocaleDate(ms: int, locale: string)

  function DateLocale(lang: Lang): string {
    if lang == En then "en-US" else "zh-TW"
  }

  /** `formatTime(timestamp)` at clock `now` in language `lang`. */
  function FormatTime(timestamp: Option<int>, now: int, lang: Lang): (r: TimeLabel)
    ensures r == Phrase(Texts(lang).timeUnknown) <==> timestamp.None?
    ensures r == Phrase(Texts(lang).timeJustNow) <==> timestamp.Some? && now - timestamp.value < MsPerMinute
    ensures r.LocaleDate? <==> timestamp.Some? && 7 * MsPerDay <= now - timestamp.value
    ensures r.LocaleDate? ==> r == LocaleDate(timestamp.value, DateLocale(lang))
    ensures timestamp.Some? && MsPerMinute <= now - timestamp.value < MsPerHour ==>
      r == Phrase(IntToString((now - timestamp.value) / MsPerMinute) + " " + Texts(lang).timeMinutesAgo)
    ensures timestamp.Some? && MsPerHour <= now - timestamp.value < MsPerDay ==>
      r == Phrase(IntToString((now - timestamp.value) / MsPerHour) + " " + Texts(lang).timeHoursAgo)
    ensures timestamp.Some? && MsPerDay <= now - timestamp.value < 7 * MsPerDay ==>
      r == Phrase(IntToString((now - timestamp.value) / MsPerDay) + " " + Texts(lang).timeDaysAgo)
  {
    var texts := Texts(lang);
    match AgeOf(timestamp, now)
    case Unknown => Phrase(texts.timeUnknown)
    case JustNow => Phrase(texts.timeJustNow)
    case MinutesAgo(m) => CountPhraseIsNotFixed(m, texts.timeMinutesAgo, lang); Phrase(IntToString(m) + " " + texts.timeMinutesAgo)
    case HoursAgo(h) => CountPhraseIsNotFixed(h, texts.timeHoursAgo, lang); Phrase(IntToString(h) + " " + texts.timeHoursAgo)
    case DaysAgo(d) => CountPhraseIsNotFixed(d, texts.timeDaysAgo, lang); Phrase(IntToString(d) + " " + texts.timeDaysAgo)
    case Older => LocaleDate(timestamp.value, DateLocale(lang))
  }

  /** A count phrase starts with a digit, so it is never the "unknown" or "just now" text. */
  lemma CountPhraseIsNotFixed(n: int, unit: string, lang: Lang)
    requires n >= 1
    ensures IntToString(n) + " " + unit != Texts(lang).timeUnknown
    ensures IntToString(n) + " " + unit != Texts(lang).timeJustNow
  {
    var p := IntToString(n) + " " + unit;
    assert p[0] == IntToString(n)[0];
    assert IsDigit(p[0]);
  }

  /** The worked examples at noon UTC on 2025-01-01 (1735732800000 ms). */
  lemma AgeExamples()
    ensures AgeOf(Some(1735732800000 - 15_000), 1735732800000) == JustNow
    ensures AgeOf(Some(1735732800000 - 5 * MsPerMinute), 1735732800000) == MinutesAgo(5)
    ensures AgeOf(Some(1735732800000 - 3 * MsPerHour), 1735732800000) == HoursAgo(3)
    ensures AgeOf(Some(1735732800000 - 3 * MsPerDay), 1735732800000) == DaysAgo(3)
    ensures AgeOf(Some(1735732800000 - 31 * MsPerDay), 1735732800000) == Older
    ensures AgeOf(Some(1735732800000 + MsPerHour), 1735732800000) == JustNow
  {
  }

  /** The seed: root "1" (5 likes) with reply "1-1" (2 likes), then root "2" (1 like). */
  lemma SeedShape(now: int, texts: SeedTexts)
    ensures var s := SeedFrom(now, texts);
      && |s| == 2 && s[0].id == "1" && s[0].likes == 5 && |s[0].replies| == 1
      && s[0].replies[0].id == "1-1" && s[0].replies[0].likes == 2
      && s[1].id == "2" && s[1].likes == 1 && s[1].replies == []
  {
  }

  /** The seed is two-level. */
  lemma SeedWellFormed(now: int, texts: SeedTexts)
    ensures WellFormed(SeedFrom(now, texts))
  {
    var s := SeedFrom(now, texts);
    var r := s[0].replies;
    forall j | 0 <= j < |r| ensures r[j].parentId == Some(s[0].id) && r[j].replies == [] {
      assert j == 0;
    }
    forall i | 0 <= i < |s| ensures s[i].parentId.None? && RepliesOf(s[i].replies, s[i].id) {
      assert i == 0 || i == 1;
    }
  }

  /** The seed's ids "1", "1-1" and "2" are unique. */
  lemma SeedUniqueIds(now: int, texts: SeedTexts)
    ensures UniqueIds(SeedFrom(now, texts))
  {
    var s := SeedFrom(now, texts);
    assert IdsOf(s[0].replies) == ["1-1"];
    assert IdsOf(s[1].replies) == [];
    assert AllIds(s[1..]) == ["2"];
    var ids := AllIds(s);
    assert ids == ["1", "1-1", "2"];
    forall i, j | 0 <= i < j < |ids| ensures ids[i] != ids[j] {
      assert (i == 0 && j == 1) || (i == 0 && j == 2) || (i == 1 && j == 2);
    }
  }

  /** Within the time range the seed's dates are valid and read 2 hours, 1 hour and 30 minutes ago. */
  lemma SeedAges(now: int, texts: SeedTexts)
    requires -MaxTimeValue + 2 * MsPerHour <= now <= MaxTimeValue
    ensures var s := SeedFrom(now, texts);
      && AllTimesValid(s)
      && AgeOf(s[0].timestamp, now) == HoursAgo(2)
      && AgeOf(s[0].replies[0].timestamp, now) == HoursAgo(1)
      && AgeOf(s[1].timestamp, now) == MinutesAgo(30)
  {
    var s := SeedFrom(now, texts);
    assert AllTimesValid(s[0].replies) by { assert s[0].replies[1..] == []; }
    assert AllTimesValid(s[1..]) by { assert s[1..][1..] == []; }
  }

  // ---------------------------------------------------------------------------
  // The component's state
  // ---------------------------------------------------------------------------

  function SlotOf(storage: map<string, Slot>, key: string): Option<Slot> {
    if key in storage then Some(storage[key]) else None
  }

  /**
   * One mounted comment section: the post it belongs to, the UI language, the
   * shown tree, `localStorage`, the form state and the submitting flag.
   */
  class CommentSection {
    const postSlug: string
    var language: Lang
    var comments: seq<Comment>
    var storage: map<string, Slot>
    var newComment: Draft
    var replyContent: string
    var replyingTo: Option<string>
    var isSubmitting: bool

    constructor (postSlug: string, language: Lang, storage: map<string, Slot>)
      ensures this.postSlug == postSlug && this.language == language && this.storage == storage
      ensures comments == [] && newComment == EmptyDraft && replyContent == ""
      ensures replyingTo.None? && !isSubmitting
    {
      this.postSlug := postSlug;
      this.language := language;
      this.storage := storage;
      comments := [];
      newComment := EmptyDraft;
      replyContent := "";
      replyingTo := None;
      isSubmitting := false;
    }

    /** The loading effect: read the slot and show its tree or the seed; a parse error leaves the view as it was. */
    method LoadComments(now: int) returns (outcome: LoadOutcome)
      modifies this`comments
      ensures outcome == LoadSlot(SlotOf(storage, StorageKey(postSlug)), now, language)
      ensures comments == if outcome.Loaded? then outcome.roots else old(comments)
    {
      outcome := LoadSlot(SlotOf(storage, StorageKey(postSlug)), now, language);
      if outcome.Loaded? {
        comments := outcome.roots;
      }
    }

    /** A language change re-runs the loading effect in the new language. */
    method ChangeLanguage(lang: Lang, now: int) returns (outcome: LoadOutcome)
      modifies this`language, this`comments
      ensures language == lang
      ensures outcome == LoadSlot(SlotOf(storage, StorageKey(postSlug)), now, lang)
      ensures comments == if outcome.Loaded? then outcome.roots else old(comments)
    {
      language := lang;
      outcome := LoadComments(now);
    }

    /** `saveComments`: overwrite this post's slot with the whole tree and show it. */
    method SaveComments(updated: seq<Comment>)
      modifies this`storage, this`comments
      ensures storage == old(storage)[StorageKey(postSlug) := Json(SerializeAll(updated))]
      ensures comments == updated
    {
      storage := storage[StorageKey(postSlug) := Json(SerializeAll(updated))];
      comments := updated;
    }

    /** The comment form's inputs. */
    method EditDraft(d: Draft)
      modifies this`newComment
      ensures newComment == d
    {
      newComment := d;
    }

    /** Opening the reply box of a root and typing into it. */
    method EditReply(rootId: Option<string>, content: string)
      modifies this`replyingTo, this`replyContent
      ensures replyingTo == rootId && replyContent == content
    {
      replyingTo := rootId;
      replyContent := content;
    }

    /** `handleSubmitComment` at clock `now`: a blank author or content changes nothing. */
    method HandleSubmitComment(now: int)
      modifies this`comments, this`storage, this`newComment, this`isSubmitting
      ensures var r := AddRootComment(old(comments), old(newComment), now);
        if r.None? then
          comments == old(comments) && storage == old(storage)
          && newComment == old(newComment) && isSubmitting == old(isSubmitting)
        else
          comments == r.value
          && storage == old(storage)[StorageKey(postSlug) := Json(SerializeAll(r.value))]
          && newComment == EmptyDraft && !isSubmitting
    {
      var r := AddRootComment(comments, newComment, now);
      if r.Some? {
        PublishComment(r.value);
      }
    }

    /** The successful end of a submission: save the new tree, then clear the form. */
    method PublishComment(updated: seq<Comment>)
      modifies this`comments, this`storage, this`newComment, this`isSubmitting
      ensures comments == updated
      ensures storage == old(storage)[StorageKey(postSlug) := Json(SerializeAll(updated))]
      ensures newComment == EmptyDraft && !isSubmitting
    {
      isSubmitting := true;
      SaveComments(updated);
      newComment := EmptyDraft;
      isSubmitting := false;
    }

    /** `handleSubmitReply(parentId)` at clock `now`: blank content changes nothing. */
    method HandleSubmitReply(parentId: string, now: int)
      modifies this`comments, this`storage, this`replyContent, this`replyingTo, this`isSubmitting
      ensures var r := AddReply(old(comments), parentId, old(replyContent), language, now);
        if r.None? then
          comments == old(comments) && storage == old(storage) && replyContent == old(replyContent)
          && replyingTo == old(replyingTo) && isSubmitting == old(isSubmitting)
        else
          comments == r.value
          && storage == old(storage)[StorageKey(postSlug) := Json(SerializeAll(r.value))]
          && replyContent == "" && replyingTo.None? && !isSubmitting
    {
      var r := AddReply(comments, parentId, replyContent, language, now);
      if r.Some? {
        PublishReply(r.value);
      }
    }

    /** The successful end of a reply: save the new tree, then close and clear the reply box. */
    method PublishReply(updated: seq<Comment>)
      modifies this`comments, this`storage, this`replyContent, this`replyingTo, this`isSubmitting
      ensures comments == updated
      ensures storage == old(storage)[StorageKey(postSlug) := Json(SerializeAll(updated))]
      ensures replyContent == "" && replyingTo.None? && !isSubmitting
    {
      isSubmitting := true;
      SaveComments(updated);
      replyContent := "";
      replyingTo := None;
      isSubmitting := false;
    }

    /** `handleLike(commentId, isReply, parentId)`: apply the like and save the whole tree. */
    method HandleLike(commentId: string, isReply: bool, parentId: Option<string>)
      modifies this`comments, this`storage
      ensures comments == Like(old(comments), commentId, isReply, parentId)
      ensures storage == old(storage)[StorageKey(postSlug) := Json(SerializeAll(comments))]
    {
      SaveComments(Like(comments, commentId, isReply, parentId));
    }
  }

  /**
   * A section that saves a tree and is then loaded again (as after a language
   * change) shows the same tree, whatever the slot held before.
   */
  method ReloadAfterSave(postSlug: string, lang: Lang, storage: map<string, Slot>, cs: seq<Comment>, now: int)
    returns (shown: seq<Comment>)
    requires AllTimesValid(cs)
    ensures shown == cs
  {
    var section := new CommentSection(postSlug, lang, storage);
    section.SaveComments(cs);
    var outcome := section.LoadComments(now);
    SaveThenLoad(cs, now, lang);
    shown := section.comments;
  }
}
