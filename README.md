# A verified model of the newblogpage blog core

This project is a Dafny model of the logic of a Next.js/React personal blog. It covers:

- **The per-article comment store** (`src/components/CommentSection.tsx`).
  - The comment tree is a list of root comments, each with an ordered list of replies.
  - It has three mutations: add a root comment, add a reply, like.
  - Loading rehydrates every timestamp and falls back to fixed seed comments.
  - Saving overwrites the whole tree in the `localStorage` slot `comments-<slug>`.
  - The relative-time formatter buckets a millisecond difference into minutes, hours and days.
- **Post metadata** (`src/lib/posts.ts`, `src/app/tags/page.tsx`).
  - Keep the `.mdx` files and derive the slug.
  - Apply the frontmatter defaults.
  - Sort by date, newest first, in the shared loader only.
- **The tag overview** (`src/app/tags/TagClient.tsx`). An occurrence count per tag, in a record, then the record's keys sorted.
- **The category overview** (`src/app/categories/CategoryClient.tsx`). Posts grouped by category, with `Uncategorized` as the default. The listing shows each category with its group size.
- **Home-page helpers** (`src/components/ClientHomePage.tsx`):
  - bilingual text fallback;
  - the first four tags and the "+N" badge;
  - the five recent posts;
  - the distinct category and tag counts.
- **The UI-language rule** (`src/utils/languageDetector.ts`):
  - a saved choice wins;
  - otherwise a Chinese-looking browser language gives `zh`;
  - a fresh choice is persisted and broadcast.
- **The navigation bar's scroll state** (`src/components/NavBar.tsx`).

## How things are modelled

- **Files and modules.** There is one module per source file, plus two helper modules:
  - `Wrappers`, for `Option`;
  - `Strings`, for the JavaScript string operations the code relies on: `trim`, `endsWith`, `includes`, ASCII `toLowerCase`, integer `toString`, code-point order, and the key order of a record.
- **I/O becomes inputs.** The clock, the UI language, `localStorage`, `navigator` and the directory listing with its parsed frontmatter are parameters or fields.
  - A post file is its name plus the frontmatter values `gray-matter` produced for it.
  - A `localStorage` slot is typed: a JSON array of stored comments, the empty string, or text that `JSON.parse` rejects.
- **Stateful components are classes.** `Comments.CommentSection`, `LanguageDetector.Browser` and `NavBar.NavBar` hold the component state and the storage map. Their methods are specified by the pure functions of their module.
- **The two loops are methods.** The counting loop of the tag overview and the grouping loop of the category overview are methods with loop invariants. They are proved against functions of the input: the tag occurrences, the groups, and the order in which the record's keys are created.
- **Dates.** A `Date` is its time value in milliseconds, or `None` for an Invalid Date. `new Date(ms)` is invalid outside ±8.64e15 ms.
  - Stringifying an Invalid Date gives `null`, and `new Date(null)` is the epoch. So the save/load round trip holds only when every timestamp is valid, and `Comments.InvalidDateReloadsAsEpoch` shows the exception.
- **Sorting and comparison.** `localeCompare` and `Array.prototype.sort()` on strings are modelled as lexicographic order of code points. The date sort is stable.
- **Record key order.** `Object.keys` and `Object.entries` list array-index keys first, in numeric order, then the others in creation order, as section 10.1.11.1 of ECMA-262 specifies (`Strings.PropertyOrder`).
- **The saved language.** The detector returns the saved value unchecked, because the `as 'en' | 'zh'` cast is not a test. So `Detect` returns a string.

## Model

| member | source | states |
|---|---|---|
| Strings.TrimIsSlice | src/components/CommentSection.tsx:193 | the trimmed text is the slice of the input after an all-whitespace leading part, followed only by whitespace; its ends are not whitespace |
| Strings.TrimEmptyIff | src/components/CommentSection.tsx:193 | a string trims to empty exactly when it is all whitespace, which is the `!x.trim()` rejection test |
| Strings.IntToStringRoundTrip | src/components/CommentSection.tsx:201 | reading back the decimal rendering of a clock value gives that value |
| Strings.SortStrings | src/app/tags/TagClient.tsx:47 | `sort()` yields an ascending permutation of its input |
| Strings.InsertionOrderShape | src/app/tags/TagClient.tsx:43 | the keys created by assigning a sequence of keys in turn are repeat-free and are exactly the assigned values |
| Strings.SortedDistinctUnique | src/app/tags/TagClient.tsx:47 | two sorted repeat-free lists with the same members are equal |
| Strings.PropertyOrder | src/app/categories/CategoryClient.tsx:56 | the enumeration order of a record is a permutation of its keys in creation order |
| Strings.PropertyOrderShape | src/app/categories/CategoryClient.tsx:56 | array-index keys come first, ascending by numeric value, then the other keys in creation order |
| Strings.PropertyOrderPlain | src/app/categories/CategoryClient.tsx:56 | without array-index keys, enumeration order is creation order |
| LanguageDetector.HasChineseLang | src/utils/languageDetector.ts:20-27 | true exactly when some browser language passes the Chinese test |
| LanguageDetector.LooksChineseIff | src/utils/languageDetector.ts:21-26 | a language looks Chinese exactly when its lower-case form contains one of `zh`, `chinese`, `cn`, `tw`, `hk` |
| LanguageDetector.Detect | src/utils/languageDetector.ts:4-36 | no window gives `en` and no write; a non-empty saved value is returned as-is with no write; otherwise the result is `en` or `zh` and is persisted |
| LanguageDetector.DetectChineseIff | src/utils/languageDetector.ts:20-30 | with nothing saved, the result is `zh` exactly when some browser language, lowercased, contains a Chinese marker |
| LanguageDetector.DetectResultIsLanguage | src/utils/languageDetector.ts:4-36 | with no saved value or a valid one, the result is `en` or `zh` |
| LanguageDetector.Browser.constructor | src/utils/languageDetector.ts:17 | the language list is `navigator.languages` or else `[navigator.language]`; the hook starts at `en` |
| LanguageDetector.Browser.DetectBrowserLanguage | src/utils/languageDetector.ts:4-36 | returns the decision; storage changes only by writing a freshly detected value under `language` |
| LanguageDetector.Browser.InitializeLanguage | src/utils/languageDetector.ts:39-48 | returns what detection returns; with a window it dispatches exactly that value once |
| LanguageDetector.Browser.Mount | src/utils/languageDetector.ts:55-60 | the hook's language becomes the detected one |
| LanguageDetector.Browser.ChangeLanguage | src/utils/languageDetector.ts:74-78 | the state, the stored `language` and the one dispatched event all carry the new language |
| Comments.AddRootComment | src/components/CommentSection.tsx:191-215 | rejected exactly when the author or the content is blank; otherwise exactly one new comment is in front and the old list follows unchanged; the new comment has trimmed non-empty author and content, trimmed email, the clock as its id, 0 likes, no replies and no parent |
| Comments.AddRootKeepsWellFormed | src/components/CommentSection.tsx:200-210 | a root submission keeps the tree two-level |
| Comments.AddRootKeepsUniqueIds | src/components/CommentSection.tsx:201-210 | after a submission, ids are unique exactly when the clock's id was not already in the tree |
| Comments.RootIdsDiffer | src/components/CommentSection.tsx:201 | submissions at different clock values get different ids |
| Comments.AddReply | src/components/CommentSection.tsx:218-243 | rejected exactly when the content is blank; otherwise the length is kept, every root with another id is unchanged, and every root with id `parentId` gets the reply appended with nothing else changed; with no matching root the tree is unchanged |
| Comments.NewReplyShape | src/components/CommentSection.tsx:224-233 | the reply names its root, has the localized guest author, an empty email, trimmed non-empty content, 0 likes, no replies and the id `<parentId>-<clock>` |
| Comments.AddReplyKeepsWellFormed | src/components/CommentSection.tsx:224-243 | a reply keeps the tree two-level |
| Comments.AddReplyKeepsUniqueIds | src/components/CommentSection.tsx:225-243 | with unique ids and an unused reply id, ids stay unique |
| Comments.ReplyIdsDiffer | src/components/CommentSection.tsx:225 | replies to one root at different clock values get different ids |
| Comments.RootAndReplyIdsDiffer | src/components/CommentSection.tsx:225 | a reply id never equals a clock-made root id |
| Comments.LikeReplies | src/components/CommentSection.tsx:257-261 | each reply with the liked id gains one like; everything else is kept |
| Comments.Like | src/components/CommentSection.tsx:252-267 | lengths and order are kept; a root gains one like exactly when it is the root target; a reply gains one exactly when it is under the named parent and has the liked id; all other fields are unchanged, so no count decreases |
| Comments.LikeTotal | src/components/CommentSection.tsx:252-267 | the total number of likes grows by the number of comments the like reaches |
| Comments.LikeAddsExactlyOne | src/components/CommentSection.tsx:252-267 | in a tree with unique ids, liking an existing target adds exactly one like in total; liking a missing one leaves the tree unchanged |
| Comments.LikeMissChangesNothing | src/components/CommentSection.tsx:252-267 | a like that reaches no comment leaves the tree unchanged |
| Comments.LikeKeepsShape | src/components/CommentSection.tsx:252-267 | a like keeps every id in place and keeps the tree two-level |
| Comments.StorageKeysDiffer | src/components/CommentSection.tsx:186 | different posts use different slots |
| Comments.SerializeAll | src/components/CommentSection.tsx:186 | one stored item per comment, in order, with every field kept, the timestamp written through `toJSON`, and the replies serialized the same way at every depth |
| Comments.ProcessAll | src/components/CommentSection.tsx:118-124 | one comment per stored item, in order, with every field kept and the timestamp rehydrated; the replies are the stored replies processed the same way at every depth, and absent replies become `[]` |
| Comments.RoundTripAll | src/components/CommentSection.tsx:118-186 | stringifying a tree and processing it back gives the same tree, at every depth, when all timestamps are valid |
| Comments.RoundTrip | src/components/CommentSection.tsx:118-186 | the same for one comment with its replies |
| Comments.InvalidDateReloadsAsEpoch | src/components/CommentSection.tsx:121 | an Invalid Date is written as `null` and comes back as the epoch, so the round trip fails for it |
| Comments.LoadSlot | src/components/CommentSection.tsx:112-167 | a parse error happens exactly for unparseable text; no slot or an empty string gives the seed; a JSON array is processed |
| Comments.SaveThenLoad | src/components/CommentSection.tsx:115-186 | loading the slot that saving wrote gives back the saved tree when its timestamps are valid |
| Comments.AgeOf | src/components/CommentSection.tsx:280-289 | each bucket holds exactly for its range of the millisecond difference, with a future time counting as just now; the count is the floored quotient |
| Comments.FormatTime | src/components/CommentSection.tsx:272-296 | the unknown label exactly for an invalid date; "just now" exactly under a minute; the count phrases per bucket; a locale date exactly from seven days on, in `en-US` or `zh-TW` |
| Comments.CountPhraseIsNotFixed | src/components/CommentSection.tsx:287-289 | a count phrase is never the unknown or just-now text |
| Comments.AgeExamples | src/components/CommentSection.tsx:281-289 | worked examples of each bucket, including a future timestamp |
| Comments.Seed | src/components/CommentSection.tsx:128-164 | the sample tree has two roots, the first with one reply; it is well-formed and no id is used twice |
| Comments.SeedShape | src/components/CommentSection.tsx:128-164 | the seed is root `1` (5 likes) with reply `1-1` (2 likes), then root `2` (1 like, no replies) |
| Comments.SeedWellFormed | src/components/CommentSection.tsx:128-164 | the seed is two-level, and `1-1` names `1` as its parent |
| Comments.SeedUniqueIds | src/components/CommentSection.tsx:128-164 | the seed's ids are unique |
| Comments.SeedAges | src/components/CommentSection.tsx:136-160 | the seed's dates are valid and read 2 hours, 1 hour and 30 minutes ago |
| Comments.CommentSection.constructor | src/components/CommentSection.tsx:22-32 | empty tree, empty form, no reply box, not submitting |
| Comments.CommentSection.LoadComments | src/components/CommentSection.tsx:112-167 | the shown tree becomes what the post's slot loads to; on a parse error it stays as it was |
| Comments.CommentSection.ChangeLanguage | src/components/CommentSection.tsx:94-167 | a language change sets the language and reloads in it |
| Comments.CommentSection.SaveComments | src/components/CommentSection.tsx:175-188 | only the post's slot is overwritten, with the whole tree, and the tree is shown |
| Comments.CommentSection.EditDraft | src/components/CommentSection.tsx:23-27 | the form holds the typed draft |
| Comments.CommentSection.EditReply | src/components/CommentSection.tsx:28-29 | the reply box and its text are set |
| Comments.CommentSection.HandleSubmitComment | src/components/CommentSection.tsx:191-215 | a rejected draft changes nothing (no comment, no save); otherwise the tree and its slot are the accepted tree and the form is cleared |
| Comments.CommentSection.PublishComment | src/components/CommentSection.tsx:211-214 | the tree becomes the given one, its slot holds that tree serialized, the draft is cleared and submission ends |
| Comments.CommentSection.HandleSubmitReply | src/components/CommentSection.tsx:218-249 | blank content changes nothing; otherwise the tree and its slot hold the reply and the reply box is closed and cleared |
| Comments.CommentSection.PublishReply | src/components/CommentSection.tsx:245-248 | the tree becomes the given one, its slot holds that tree serialized, the reply box is cleared and closed, and submission ends |
| Comments.CommentSection.HandleLike | src/components/CommentSection.tsx:252-269 | the tree becomes the liked tree and is saved whole |
| Comments.ReloadAfterSave | src/components/CommentSection.tsx:112-188 | a section that saves a tree and then reloads shows that same tree |
| Posts.Slug | src/lib/posts.ts:27 | the slug plus `.mdx` is the file name for `.mdx` files |
| Posts.TextOr | src/lib/posts.ts:22-24 | a truthy title or description is kept; otherwise the fallback is used |
| Posts.ToMeta | src/lib/posts.ts:21-28 | title falls back to the slug, the date is stringified when not a string, description and categories default to `''`, tags to `[]` |
| Posts.FilterMdx | src/lib/posts.ts:16 | exactly the `.mdx` files are kept |
| Posts.FilterMdxAppend | src/lib/posts.ts:16 | filtering keeps directory order |
| Posts.MapMeta | src/lib/posts.ts:17-28 | one post per file, in order |
| Posts.SortByDateDesc | src/lib/posts.ts:29 | the result is sorted by date, newest first, and is a permutation of the input; posts with equal dates keep their order |
| Posts.GetAllPosts | src/lib/posts.ts:14-30 | the result is sorted newest first and is a permutation of the metadata of the `.mdx` files, one post per file |
| Posts.GetAllPostsMembers | src/lib/posts.ts:14-30 | one post per `.mdx` file, and a post is listed exactly when it is the metadata of such a file |
| Posts.SlugsDiffer | src/lib/posts.ts:27 | different `.mdx` files get different slugs |
| TagsPage.ToTagMeta | src/app/tags/page.tsx:22-28 | the same defaults as the shared loader |
| TagsPage.GetAllPosts | src/app/tags/page.tsx:14-30 | one post per `.mdx` file, in filtered directory order, with no sort |
| TagsPage.AgreesWithSharedLoader | src/app/tags/page.tsx:22-28 | each post is the shared loader's post without `categories` |
| TagsPage.KeepsDirectoryOrder | src/app/tags/page.tsx:16-29 | the loader distributes over concatenation of the listing, so it keeps order |
| TagClient.PostWithoutTagsCountsNothing | src/app/tags/TagClient.tsx:42 | a post without `tags` contributes no occurrence, wherever it stands |
| TagClient.CountTags | src/app/tags/TagClient.tsx:40-45 | the record has a key exactly for each occurring tag, its value is the tag's total number of occurrences, and keys are created in first-occurrence order |
| TagClient.CountMapMeaning | src/app/tags/TagClient.tsx:40-45 | the record built by counting has a key exactly for each occurrence seen, holding that tag's number of occurrences |
| TagClient.CountPostTags | src/app/tags/TagClient.tsx:42-44 | counting one post's tags on top of a record of earlier occurrences gives the record, and key order, of all occurrences so far |
| TagClient.DisplayedTags | src/app/tags/TagClient.tsx:47 | the displayed list is sorted ascending and is a permutation of the record's keys |
| TagClient.DisplayedTagsShape | src/app/tags/TagClient.tsx:47 | the displayed list is sorted ascending, repeat-free, and holds exactly the occurring tags |
| TagClient.TagOverview | src/app/tags/TagClient.tsx:40-47 | the displayed tags and the count shown next to each |
| TagClient.DisplayedTagsDetermined | src/app/tags/TagClient.tsx:47 | any sorted repeat-free list of the occurring tags is the displayed list, so key enumeration order does not matter |
| TagClient.ListedCountPositive | src/app/tags/TagClient.tsx:69 | every listed tag has a count of at least one |
| CategoryClient.CategoryOf | src/app/categories/CategoryClient.tsx:36 | an empty category goes to `Uncategorized`; otherwise the category is kept |
| CategoryClient.GroupMembers | src/app/categories/CategoryClient.tsx:35-39 | a group holds exactly the posts of its category |
| CategoryClient.GroupAppend | src/app/categories/CategoryClient.tsx:38 | groups keep input order |
| CategoryClient.GroupByCategory | src/app/categories/CategoryClient.tsx:34-39 | the record has a key exactly per category met, holding that category's posts in order, with keys in first-appearance order |
| CategoryClient.PushPost | src/app/categories/CategoryClient.tsx:35-38 | one loop step turns the record and key order of the posts so far into those of the posts so far plus this one |
| CategoryClient.GroupMapMeaning | src/app/categories/CategoryClient.tsx:34-39 | the record built by grouping has a key exactly per category met, holding that category's posts in list order |
| CategoryClient.ListedCategories | src/app/categories/CategoryClient.tsx:56 | `Object.entries` lists a permutation of the record's keys |
| CategoryClient.ListedCategoriesShape | src/app/categories/CategoryClient.tsx:56 | each category is listed once, and exactly the posts' categories are listed |
| CategoryClient.ListedInFirstAppearanceOrder | src/app/categories/CategoryClient.tsx:56 | without numeric category names, the listing is in first-appearance order |
| CategoryClient.CategoryListing | src/app/categories/CategoryClient.tsx:56-63 | each listed category is paired with its group's size |
| CategoryClient.SumSizesAll | src/app/categories/CategoryClient.tsx:35-39 | every post lands in exactly one group: over repeat-free covering keys, the group sizes sum to the number of posts |
| CategoryClient.ListedSizesSum | src/app/categories/CategoryClient.tsx:35-63 | the listed counts sum to the number of posts |
| CategoryClient.EmptyCategoryIsUncategorized | src/app/categories/CategoryClient.tsx:36 | a post with no category is in the listed `Uncategorized` group |
| ClientHomePage.GetLocalizedText | src/components/ClientHomePage.tsx:31-35 | `''` for absent text; a plain string unchanged; for a bilingual text, the current language's entry if non-empty, else `en` |
| ClientHomePage.LocalizedIsAnEntry | src/components/ClientHomePage.tsx:34 | a bilingual text shows one of its entries, and is blank exactly when both candidates are |
| ClientHomePage.NonChineseShowsEnglish | src/components/ClientHomePage.tsx:34 | any language other than `zh` shows the English entry |
| ClientHomePage.TagStripOf | src/components/ClientHomePage.tsx:120-135 | no strip for no tags; otherwise exactly the first min(4, n) tags in order, and a badge exactly when there are more than four, showing n − 4 |
| ClientHomePage.TagStripCountsAll | src/components/ClientHomePage.tsx:131-133 | shown tags plus the badge number account for every tag; with a badge, the hidden tags are exactly those past the fourth and the badge shows n − 4 |
| ClientHomePage.RecentPosts | src/components/ClientHomePage.tsx:196 | the first `min(5, n)` posts, in order |
| ClientHomePage.RecentAreNewest | src/components/ClientHomePage.tsx:196 | over the date-sorted list, no post left out is newer than a recent one |
| ClientHomePage.CategoryCount | src/components/ClientHomePage.tsx:226 | the distinct-category count is at most the number of posts, and zero exactly when no post has a category |
| ClientHomePage.CategoryCountMatchesOverview | src/components/ClientHomePage.tsx:226 | when every post has a category, the distinct-category count equals the category overview's number of entries |
| ClientHomePage.TagCount | src/components/ClientHomePage.tsx:234 | the distinct-tag count is zero exactly when every post's tag list is empty |
| ClientHomePage.TagCountMatchesOverview | src/components/ClientHomePage.tsx:234 | the distinct-tag count equals the length of the tag overview's list |
| NavBar.Visible | src/components/NavBar.tsx:20-24 | past 100 the bar shows exactly when scrolling up; at or below 100 it always shows |
| NavBar.StillPastBandHides | src/components/NavBar.tsx:20-21 | past 100, an event that does not move up hides the bar |
| NavBar.NavBar.constructor | src/components/NavBar.tsx:8-11 | at the top, the bar is shown and there is no scroll-to-top button |
| NavBar.NavBar.HandleScroll | src/components/NavBar.tsx:17-28 | visibility follows `Visible` against the previous position; the button shows exactly past 600; both positions become the new one |

## Left out

- Rendering, JSX, CSS, icons and the `mounted` hydration guards: these are presentation, not logic.
- The simulated latency before a submission, and interleaving through the `isSubmitting` flag. Each submission is one atomic step; the flag is set and cleared within it.
- `JSON.parse`/`JSON.stringify` of arbitrary text. A slot is typed as the stored tree, the empty string, or unparseable text. Other JSON values (`"null"`, a non-array) are not modelled.
- The `...c` spread of extra stored fields. Stored comments carry exactly the fields of a comment.
- Unicode case mapping: `toLowerCase` maps only ASCII letters.
- `localeCompare` collation and UTF-16 code units: strings compare by code point.
- `toLocaleDateString` is a label value (time value, locale), not rendered text.
- `String(date)` of a non-string frontmatter date is an input (its rendered text).
- Fractional scroll positions: positions are integers.
- The scroll listener is re-registered on every change of `lastScrollY`, and a stale `lastScrollY` between two events is possible. Events are modelled one after another, each seeing the previous position.
- `LanguageDetector.Detect`: a saved value outside `en`/`zh` is returned as-is. The comment section's language, however, is always `en` or `zh` in the model.
- `CategoryClient.GroupByCategory`: does not model the prototype names of a `{}` record (`constructor`, `__proto__`, …). With them, `categoryMap[category]` can read an inherited value. The same applies to `TagClient.CountTags`, where `tagMap[tag] || 0` can read an inherited value.
- `ClientHomePage.CategoryCountMatchesOverview`: states the link to the category overview only when every post has a category. Otherwise the overview also lists `Uncategorized`.
- `src/app/archives/ArchiveClient.tsx` `getText`, the theme toggles, the hero banner and the home navbar's styling are not part of this model.
