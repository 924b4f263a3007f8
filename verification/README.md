# Blog core, modelled in Dafny

This project models the core of a small blog application: a Next.js app
with a Postgres database reached through Drizzle and a tRPC read API.
The model covers:

- the **`createPost` server action**: it normalises the submitted form,
  resolves the author, derives a slug no post has yet, upserts the post on
  its slug and recounts every author's `posts_count`, then redirects;
- **`slugify`**, the title-to-slug transform. It is defined once, because
  the server action and the form store define the same transform;
- the client **post-form store**, whose `setTitle` keeps the slug in step
  with the title until the author touches the slug field;
- the public **read procedures**: the paginated and filtered feed, one post
  by slug, the sitemap list, the author list and the related posts;
- the two **query helpers**: the category list and the slug lookup used by
  the post page;
- the **schema**: the `users` and `posts` rows, their unique columns,
  the foreign key with `ON DELETE CASCADE`, the column widths and the
  defaults.

Modules, one per file:

- `Text` holds the JavaScript string built-ins the code relies on:
  `toLowerCase`, `trim`, `slice`, decimal formatting, code-point ordering
  and case-insensitive substring search.
- `SqlOps` holds `WHERE`, `ORDER BY` and `LIMIT`/`OFFSET` as
  filter, stable insertion sort and slice over sequences.
- `Schema` holds the tables and the `Database` class, which holds both
  tables and the post-id serial.
- `Slugs` holds `slugify`; `SlugSamples` works concrete titles through it.
- `Actions` holds the server action.
- `FormStore` holds the store: a class whose methods update its six fields
  in place, beside the same actions as a pure transition function.
- `Router` holds the tRPC procedures.
- `Queries` holds the query helpers.

The database is modelled as values: a table is a sequence of rows in table
order. The action's database work is modelled as methods on the `Database`
object.

## Model

| member | source | states |
|---|---|---|
| Slugs.Slugify | src/app/blog/actions.ts:10-17 | the result contains only `a-z`, `0-9` and `-`, and never two hyphens in a row |
| Slugs.SlugifyFixedPoints | src/app/blog/actions.ts:10-17 | a string is left unchanged by slugify exactly when it already is a slug |
| Slugs.SlugifyIdempotent | src/app/blog/actions.ts:10-17 | slugifying twice gives the same as slugifying once |
| Slugs.SlugifyPunctuationOnly | src/app/blog/actions.ts:12-14 | a title made only of punctuation slugifies to the empty string, because trimming happens before punctuation is removed |
| Slugs.SlugifyTrailingHyphen | src/app/blog/actions.ts:12-15 | the space before trailing punctuation survives as a trailing hyphen |
| Slugs.SlugifySamplePunctuation | src/app/blog/actions.ts:10-17 | `slugify("!!!") == ""` |
| Slugs.SlugifySampleTrailing | src/app/blog/actions.ts:10-17 | `slugify("a !") == "a-"` |
| Slugs.KeepSlugCharsAppend | src/app/blog/actions.ts:14-14 | removing disallowed characters works piecewise over a concatenation |
| Slugs.HyphenateSpacesAppend | src/app/blog/actions.ts:15-15 | replacing white-space runs works piecewise, given whether a run is open at the seam |
| Slugs.SqueezeHyphensAppend | src/app/blog/actions.ts:16-16 | squeezing hyphen runs works piecewise, given whether a run is open at the seam |
| SlugSamples.SlugifyCapitalisedPair | src/app/blog/actions.ts:10-17 | two capitalised words with punctuation, separated by one space, become the lowered words joined by one hyphen |
| SlugSamples.SlugifyHelloWorld | src/app/blog/actions.ts:10-17 | `slugify("Hello, World!") == "hello-world"` |
| SlugSamples.SlugifySpacedWords | src/app/blog/actions.ts:13-16 | surrounding white space is trimmed, and each inner white-space run and each hyphen run becomes one hyphen |
| SlugSamples.SlugifyMultipleSpaces | src/app/blog/actions.ts:10-17 | `slugify("  multiple   spaces--here ") == "multiple-spaces-here"` |
| Actions.EnsureUniqueSlug | src/app/blog/actions.ts:19-32 | returns a slug no post has, namely the first free candidate of base (or "post"), base-2, base-3, ...; the loop terminates |
| Actions.CandidatesDistinct | src/app/blog/actions.ts:20-30 | no candidate slug is tried twice |
| Actions.Candidate | src/app/blog/actions.ts:20-30 | the k-th slug tried: `base \|\| "post"` first, then `${base}-k`; never empty |
| Actions.EmptyBaseCandidates | src/app/blog/actions.ts:20-30 | with an empty base, the numbered candidates are "-2", "-3", ..., not "post-2" |
| Actions.FirstFreeUnique | src/app/blog/actions.ts:19-32 | the first free candidate is unique, so the loop's result is determined by the table |
| Actions.GetAuthorId | src/app/blog/actions.ts:34-44 | the id of a user with the trimmed name (default "guest"), else the first user's id, else the "No users found" error exactly when the table is empty |
| Actions.GetAuthorIdByName | src/app/blog/actions.ts:34-37 | with unique usernames, a user holding the name is the one found |
| Actions.FindUserByName | src/app/blog/actions.ts:36-37 | a user with exactly that username, or none exactly when no user has it |
| Actions.FindUserByNameFirst | src/app/blog/actions.ts:36-37 | the user found is the first in table order to hold the name |
| Actions.NormalCategory | src/app/blog/actions.ts:49-49 | the category is at most 100 code points and has no white space at either end |
| Actions.NormalCategoryDefault | src/app/blog/actions.ts:49-49 | a missing or empty category becomes "uncategorized" |
| Actions.NormalCategoryKeeps | src/app/blog/actions.ts:49-49 | a category that fits and has no surrounding white space is kept as sent |
| Actions.NormalCategoryTruncates | src/app/blog/actions.ts:49-49 | a longer category is cut to its first 100 code points before trimming |
| Actions.BaseSlug | src/app/blog/actions.ts:58-58 | the base slug, from the slug field or else the title, is a slug |
| Actions.FormTitle | src/app/blog/actions.ts:47-47 | the trimmed title, empty when missing, with no white space at either end |
| Actions.FormTitleVarchar | src/server/db/schema.ts:46-46 | a trimmed title is stored unchanged by its `varchar(255)` when it fits and rejected otherwise, so the action's length check is the column's |
| Actions.FormContent | src/app/blog/actions.ts:50-50 | the trimmed content, empty when missing, with no white space at either end |
| Actions.FormAuthor | src/app/blog/actions.ts:51-51 | the trimmed author name, "guest" when missing, with no white space at either end |
| Actions.UpsertBySlug | src/app/blog/actions.ts:61-80 | a row with a new slug is appended; with a taken slug the table keeps its length |
| Actions.UpsertBySlugSpec | src/app/blog/actions.ts:61-80 | after the upsert exactly one row has the slug and carries the new title, content, category, author and publication time; other rows are untouched; slugs stay unique |
| Actions.NewPost | src/server/db/schema.ts:42-57 | the new row fits its columns exactly when the title, the slug and the category fit; every default the row takes fits |
| Actions.RecountPosts | src/app/blog/actions.ts:83-88 | each user who wrote posts gets their post count, a user with none keeps the old count, and no other column changes |
| Actions.CountPosts | src/app/blog/actions.ts:86-86 | the `COUNT(*)` of one author's posts, never more than the table holds |
| Actions.CountPostsFilter | src/app/blog/actions.ts:86-86 | the count is the number of posts the `GROUP BY` puts in that author's group |
| Actions.Recount | src/app/blog/actions.ts:83-88 | one user row after the update: only `posts_count` may change |
| Actions.RecountPostsCounts | src/app/blog/actions.ts:83-88 | an author's new count equals the number of posts whose author is them |
| Actions.RecountPostsConsistent | src/app/blog/actions.ts:83-88 | recounting keeps the user ids and every table invariant |
| Actions.CountPostsAppend | src/app/blog/actions.ts:83-88 | appending a post adds one to its author's count only |
| Actions.CountPostsPositive | src/app/blog/actions.ts:83-88 | the count is positive exactly when the user is the author of some post, i.e. exactly when the join row exists |
| Actions.CreatePost | src/app/blog/actions.ts:46-92 | a blank title or content gives the "required" error and changes nothing; otherwise an empty users table throws, and only then; otherwise the action redirects exactly when the title and the first free slug fit 255 characters, and the only other outcome is the "too long" error, which has still used up a serial value; on success exactly one post is appended, with the first free slug and the normalised fields, the counts are recomputed and the redirect goes to `/blog/<slug>` |
| Actions.DrawPostId | src/server/db/schema.ts:42-42 | the serial hands out its next value, which exceeds every existing post id |
| Actions.InsertPost | src/app/blog/actions.ts:61-88 | with a fresh slug the row is appended, the counts are recomputed and the tables stay consistent |
| Actions.InsertKeepsConsistent | src/server/db/schema.ts:39-65 | appending a fitting row with a fresh id, a fresh slug and an existing author keeps every constraint |
| FormStore.Apply | src/stores/usePostFormStore.ts:42-56 | only `touchSlug` sets the touched flag and only `reset` clears it; `reset` returns the initial state |
| FormStore.UntouchedWithoutTouch | src/stores/usePostFormStore.ts:44-55 | without `touchSlug` the flag never becomes set |
| FormStore.TouchedWithoutReset | src/stores/usePostFormStore.ts:44-55 | without `reset` a set flag stays set |
| FormStore.TouchedSlugKept | src/stores/usePostFormStore.ts:44-49 | once touched, title changes leave the slug alone |
| FormStore.SlugFollowsTitle | src/stores/usePostFormStore.ts:44-49 | until the slug is touched or set, it is always the slugified title |
| FormStore.InitialSlugFollowsTitle | src/stores/usePostFormStore.ts:24-31 | the initial state's slug is the slugified initial title |
| FormStore.ResetRestores | src/stores/usePostFormStore.ts:55-55 | after any actions, `reset` gives the initial state |
| FormStore.RunAppend | src/stores/usePostFormStore.ts:42-56 | running two action sequences one after the other is running their concatenation |
| FormStore.PostFormStore.constructor | src/stores/usePostFormStore.ts:24-31 | a new store holds the initial state (category "notes", author "guest") |
| FormStore.PostFormStore.SetTitle | src/stores/usePostFormStore.ts:44-49 | sets the title; the slug becomes the slugified title unless touched; nothing else changes |
| FormStore.PostFormStore.SetSlug | src/stores/usePostFormStore.ts:50-50 | sets the slug without marking it touched; nothing else changes |
| FormStore.PostFormStore.TouchSlug | src/stores/usePostFormStore.ts:51-51 | sets the touched flag; nothing else changes |
| FormStore.PostFormStore.SetCategory | src/stores/usePostFormStore.ts:52-52 | sets the category; nothing else changes |
| FormStore.PostFormStore.SetContent | src/stores/usePostFormStore.ts:53-53 | sets the content; nothing else changes |
| FormStore.PostFormStore.SetAuthorUsername | src/stores/usePostFormStore.ts:54-54 | sets the author name; nothing else changes |
| FormStore.PostFormStore.Reset | src/stores/usePostFormStore.ts:55-55 | restores the initial state |
| Router.ParseFeedInput | src/server/routers/app.ts:17-48 | a missing input gives page 1, 10 per page, newest first; each field is defaulted or kept; an out-of-range field rejects the request, and only then |
| Router.TotalPages | src/server/routers/app.ts:112-112 | at least one page; the pages hold every match and the last page is not empty |
| Router.FeedOrderTotal | src/server/routers/app.ts:68-71 | both feed orders are total preorders, so sorting by them is well defined |
| Router.FeedOf | src/server/routers/app.ts:50-114 | at most one page of rows; `total` is the number of matching posts; `totalPages` covers them; a page past the end is empty; which rows the page holds is `Router.FeedPageRows` |
| Router.Matches | src/server/routers/app.ts:50-66 | the feed's filters: published with a publication time, then category, tag, author id, author username and text search when given; every match is a post the sitemap lists |
| Router.GetAllPosts | src/server/routers/app.ts:36-115 | succeeds exactly when the input validates, with at most 100 rows and at least one page |
| Router.FeedRowsMatch | src/server/routers/app.ts:50-97 | every row is a post of the table that passes every given filter, joined to its author |
| Router.FeedTotalCounts | src/server/routers/app.ts:50-104 | each matching post is counted as often as the table holds it, and no other post is counted |
| Router.FeedSorted | src/server/routers/app.ts:68-95 | the rows are in the requested order, newest or oldest first |
| Router.FeedPageSize | src/server/routers/app.ts:73-97 | a page starting before the end holds `pageSize` rows, or all remaining matches if fewer |
| Router.FeedPageRows | src/server/routers/app.ts:73-114 | row `k` of page `p` is the match at position `(p - 1) * pageSize + k` of the ordered matches, joined to its author; the page holds `pageSize` rows, or every remaining match when fewer remain, and none past the end |
| Router.FeedEmptyTable | src/server/routers/app.ts:100-113 | an empty table gives no rows, a total of 0 and one page |
| Router.GetPostBySlug | src/server/routers/app.ts:120-149 | an empty slug is rejected; otherwise a published post with the slug, joined to its author, or null exactly when there is none |
| Router.GetPostBySlugFinds | src/server/routers/app.ts:120-149 | with unique slugs, each published post is found by its slug |
| Router.GetSitemapPosts | src/server/routers/app.ts:154-168 | one row per published post that has a publication time; which rows is `Router.SitemapRows` and its two companions |
| Router.SitemapRows | src/server/routers/app.ts:154-168 | row `i` is the slug, publication time, update time and category of the `i`-th listed post |
| Router.SitemapRowsComplete | src/server/routers/app.ts:156-164 | every published post with a publication time has its row |
| Router.SitemapRowsSound | src/server/routers/app.ts:156-164 | every row is the row of a published post with a publication time |
| Router.SitemapCounts | src/server/routers/app.ts:154-168 | each listed post appears as often as the table holds it, and drafts never |
| Router.SitemapNewestFirst | src/server/routers/app.ts:164-165 | every publication time is present and they never increase down the list |
| Router.GetAllAuthors | src/server/routers/app.ts:173-187 | one row per active user; which rows is `Router.AuthorRows` and its two companions |
| Router.AuthorRows | src/server/routers/app.ts:173-187 | row `i` is the id, username, display name, bio and post count of the `i`-th listed user |
| Router.AuthorRowsComplete | src/server/routers/app.ts:174-183 | every active user has a row |
| Router.AuthorRowsSound | src/server/routers/app.ts:174-183 | every row is an active user's: only active users are returned |
| Router.AuthorsSpec | src/server/routers/app.ts:173-187 | only active users are listed, each once; counts never increase, and equal counts are in username order |
| Router.RelatedPosts | src/server/routers/app.ts:224-237 | at most `limit` posts; `Router.RelatedPostsComplete` states that exactly the newest `limit` are taken |
| Router.RelatedPostsSpec | src/server/routers/app.ts:212-237 | the related posts come from the table, are related to the source, and are newest first |
| Router.RelatedPostsComplete | src/server/routers/app.ts:211-237 | `limit` related posts are listed, or all when fewer exist; a related post that is not listed sorts after every listed one |
| Router.SharesTopic | src/server/routers/app.ts:216-221 | the `OR` of the tag-overlap and same-category clauses, and no condition when the source has neither |
| Router.IsRelated | src/server/routers/app.ts:212-222 | published, with a publication time, not the source itself, and sharing a topic with it |
| Router.SharesTopicSelf | src/server/routers/app.ts:215-221 | a post shares a topic with itself, so only the `id <> baseId` clause keeps the source out of its own list |
| Router.GetRelatedPosts | src/server/routers/app.ts:192-240 | rejects an empty slug or a limit outside 1..10; at most `limit` rows (default 4); `[]` when no post has the slug |
| Router.RelatedRowsRelated | src/server/routers/app.ts:211-222 | every row is another published post that shares a tag or the category (when the source has either) |
| Router.RelatedRowsComplete | src/server/routers/app.ts:192-240 | `getRelatedPosts` lists `limit` related posts (default 4), or all when fewer exist; a related post that is not listed was published no later than every listed one |
| Router.RelatedNewestFirst | src/server/routers/app.ts:236-236 | the related rows are newest first |
| Queries.FetchDistinctCategories | src/server/db/queries.ts:6-16 | no listed category is blank |
| Queries.CategoriesSorted | src/server/db/queries.ts:11-11 | the categories are in ascending order |
| Queries.CategoriesCount | src/server/db/queries.ts:6-16 | a non-blank category appears once per post that has it, a blank one never |
| Queries.CategoriesKeepDuplicates | src/server/db/queries.ts:13-15 | two posts in the same category give that category twice; nothing is deduplicated |
| Queries.GetPost | src/server/db/queries.ts:17-41 | null exactly when no post has the slug; otherwise the first such post with its author's name, whatever its status, and a NULL publication time stays null |
| Queries.DraftOnlyThroughGetPost | src/server/db/queries.ts:17-41 | a draft is found by `getPost` but not by the public `getPostBySlug` |
| Schema.FindPostBySlug | src/server/db/schema.ts:47-47 | the first row with the slug, or none exactly when no row has it |
| Schema.FindUserById | src/server/routers/app.ts:93-93 | the user a post joins to, or none exactly when no user has the id |
| Schema.InsertUser | src/server/db/schema.ts:19-37 | the username is stored through its `varchar(50)` (trailing excess spaces cut, any other excess an error); the insert then succeeds exactly when the id and the stored username are free; the new row takes every column default; the table invariants are kept |
| Schema.Varchar | src/server/db/schema.ts:23-23 | a value is stored exactly when it fits or its excess is all spaces; what is stored fits, is a prefix of the value, and only spaces are cut |
| Schema.VarcharUncut | src/server/db/schema.ts:46-47 | a value not ending in a space, such as a trimmed title or a slug, is stored unchanged when it fits and rejected otherwise |
| Schema.VarcharPadded | src/server/db/schema.ts:23-23 | a fitting username padded with spaces is stored, and keeps all of its own characters |
| Schema.PostFits | src/server/db/schema.ts:46-53 | the widths of the `posts` varchar columns |
| Schema.DistinctPosts | src/server/db/schema.ts:42-47 | two posts differ in the primary key and in the unique slug |
| Schema.UsersConsistent | src/server/db/schema.ts:19-37 | every user fits its columns, and no two users share an id, a username or a non-null e-mail |
| Schema.PostsConsistent | src/server/db/schema.ts:39-65 | every post fits its columns and has an existing author, and no two posts share an id or a slug |
| Schema.Consistent | src/server/db/schema.ts:19-65 | both tables meet their constraints |
| Schema.Database.Valid | src/server/db/schema.ts:42-42 | the tables are consistent and every post id is below the next serial value |
| Schema.DeleteUser | src/server/db/schema.ts:43-45 | deleting a user removes exactly that user and their posts, and keeps the tables consistent |
| Schema.Database.constructor | src/server/db/schema.ts:39-65 | a database with the given users, no posts, and a consistent state |
| SqlOps.SortBy | src/server/routers/app.ts:68-71 | sorting keeps every row, as a permutation |
| SqlOps.SortBySorted | src/server/routers/app.ts:68-71 | under a total preorder the sorted rows are in order |
| SqlOps.FilterCount | src/server/routers/app.ts:50-66 | the filter keeps each row that passes as often as it occurs, and drops the rest |
| SqlOps.SelectionMembers | src/server/routers/app.ts:154-187 | a filtered and ordered result holds exactly the table rows that pass the filter |
| Text.Trim | src/app/blog/actions.ts:13-13 | the result is empty exactly when the input is all white space, and otherwise has no white space at either end |
| Text.TrimAround | src/app/blog/actions.ts:13-13 | white space around a string that has none at its ends is removed |
| Text.LowerAppend | src/app/blog/actions.ts:12-12 | lower-casing works piecewise over a concatenation |
| Text.ParseNatToString | src/app/blog/actions.ts:30-30 | the decimal text of a number reads back as that number |
| Text.NatToStringInjective | src/app/blog/actions.ts:30-30 | different numbers give different decimal text, so `base-i` never repeats |
| Text.StrLeTotal | src/server/db/queries.ts:11-11 | the text ordering compares every pair |

## Left out

- I/O: the database client, the tRPC and Next.js wiring, `revalidatePath` and the seed script are not modelled. `redirect` is returned as an `Outcome` value.
- Time: the clock is a parameter `now`; timestamps are integers.
- Concurrency: two concurrent `createPost` calls are not modelled. The `ON CONFLICT (slug) DO UPDATE` branch can only be reached under such a race, so it appears as `UpsertBySlug` and `UpsertBySlugSpec` and not as a reachable path of `CreatePost`.
- Form values: a `File` in the form data (where `String(...)` would yield "[object File]") is not modelled; a field is either missing or a string.
- Non-integer numbers: zod's integer check for `page`, `pageSize`, `authorId` and `limit` is built into the types, so a non-integer input is not modelled.
- Text.Lower: `toLowerCase` is modelled for ASCII letters and for the two non-ASCII characters whose lower case contains ASCII: U+0130 becomes "i" plus U+0307, and U+212A (Kelvin) becomes "k". Other letters keep their case. This only affects slugify through characters it removes anyway, and `ilike` on non-ASCII text.
- Text.StrLe: `ORDER BY` on text is modelled as code-point order. A database collation may order differently.
- SqlOps.SortBy: rows that tie on every `ORDER BY` key keep their table order. SQL leaves that order unspecified, so the model fixes one of the allowed answers.
- Text.ContainsIgnoreCase: `ilike '%q%'` is modelled as a case-insensitive substring search. A `%` or `_` inside `q` is taken literally, where the database would treat it as a wildcard, and a `\` inside `q` is taken literally, where the database would treat it as the escape character of `LIKE`.
- Router.TotalPages: `Math.ceil` on a JavaScript float is modelled as exact integer ceiling division. The two agree for any count a table can hold.
- Actions.GetAuthorId: the fallback user (`LIMIT 1` without `ORDER BY`) is taken to be the first row in table order.
- Actions.CreatePost: an insert rejected for a title or slug over 255 characters is modelled as a thrown error that leaves the tables unchanged, but the serial value drawn for it is still used up.
- Queries.FetchDistinctCategories: despite its name, the function does not deduplicate, and the model follows the code. `Queries.CategoriesKeepDuplicates` states this.
- Actions.NormalCategory: `slice(0, 100)` counts UTF-16 code units, while the model cuts at 100 code points. A category with characters outside the Basic Multilingual Plane is cut later in the model than in the code, and a cut inside a surrogate pair (a lone surrogate) cannot be represented.
- Actions.NormalCategoryKeeps: the category is kept when it fits in 100 code points; the code keeps it only when it fits in 100 UTF-16 code units, which differs for characters outside the Basic Multilingual Plane.
- Actions.NormalCategoryTruncates: "the first 100 characters" are 100 code points here and 100 UTF-16 code units in the code.
- Actions.CreatePost: a U+0000 character in the title, content or category makes PostgreSQL reject the insert ("invalid byte sequence for encoding UTF8: 0x00"); the model has no such error and redirects.
- Actions.GetAuthorId: a U+0000 character in the author name makes the lookup query throw; the model compares the name and falls back to the first user.
- Router.GetAllPosts: an `authorId` outside the 32-bit range of the `integer` column passes the input rules but makes the query fail; the model compares it as an unbounded integer and returns an empty feed. A U+0000 character in a text filter likewise makes the query fail and is not modelled.
- Router.FeedOf: a page number so large that the offset overflows the database's integer type is not modelled; integers are unbounded.
