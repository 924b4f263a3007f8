/**
 * The public read API: the paginated feed, a single post by slug, the
 * sitemap list, the author list and the related posts. Each procedure
 * validates its input, then is a filter, an ordering and a slice over the
 * tables, with each post joined to its author.
 */
module Router {
  import opened Wrappers
  import opened Text
  import opened SqlOps
  import opened Schema

  // ---------------------------------------------------------------------
  // Input validation
  // ---------------------------------------------------------------------

  datatype Order = New | Old

  /** The feed's raw input; `None` is a field the caller left out. */
  datatype FeedInput = FeedInput(
    page: Option<int>,
    pageSize: Option<int>,
    order: Option<string>,
    category: Option<string>,
    tag: Option<string>,
    authorId: Option<int>,
    authorUsername: Option<string>,
    q: Option<string>)

  /** The feed's input once validated and defaulted. */
  datatype FeedQuery = FeedQuery(
    page: int,
    pageSize: int,
    order: Order,
    category: Option<string>,
    tag: Option<string>,
    authorId: Option<int>,
    authorUsername: Option<string>,
    q: Option<string>)

  const DefaultPage := 1
  const DefaultPageSize := 10
  const MaxPageSize := 100

  predicate NonEmptyIfGiven(o: Option<string>) {
    o.None? || o.value != ""
  }

  /** The rules of `paginationInput`: each field is absent or within its bounds. */
  predicate ValidFeedInput(input: FeedInput) {
    && (input.page.None? || input.page.value >= 1)
    && (input.pageSize.None? || 1 <= input.pageSize.value <= MaxPageSize)
    && (input.order.None? || input.order.value == "new" || input.order.value == "old")
    && NonEmptyIfGiven(input.category)
    && NonEmptyIfGiven(input.tag)
    && NonEmptyIfGiven(input.authorUsername)
    && NonEmptyIfGiven(input.q)
  }

  predicate ValidQuery(q: FeedQuery) {
    q.page >= 1 && 1 <= q.pageSize <= MaxPageSize
  }

  const BadRequest := "BAD_REQUEST"

  /**
   * `paginationInput.optional()`: a missing input or field takes its default
   * (page 1, 10 per page, newest first); a field out of bounds rejects the
   * request.
   */
  function ParseFeedInput(input: Option<FeedInput>): (r: Result<FeedQuery>)
    ensures r.Ok? <==> input.None? || ValidFeedInput(input.value)
    ensures r.Err? ==> r.error == BadRequest
    ensures r.Ok? ==> ValidQuery(r.value)
    ensures input.None? ==> r == Ok(FeedQuery(DefaultPage, DefaultPageSize, New, None, None, None, None, None))
    ensures r.Ok? && input.Some? ==>
      var i, q := input.value, r.value;
      && q.page == (if i.page.Some? then i.page.value else DefaultPage)
      && q.pageSize == (if i.pageSize.Some? then i.pageSize.value else DefaultPageSize)
      && (q.order == Old <==> i.order == Some("old"))
      && q.category == i.category && q.tag == i.tag && q.authorId == i.authorId
      && q.authorUsername == i.authorUsername && q.q == i.q
  {
    match input
    case None => Ok(FeedQuery(DefaultPage, DefaultPageSize, New, None, None, None, None, None))
    case Some(i) =>
      if !ValidFeedInput(i) then Err(BadRequest)
      else
        var page := if i.page.Some? then i.page.value else DefaultPage;
        var pageSize := if i.pageSize.Some? then i.pageSize.value else DefaultPageSize;
        var order := if i.order == Some("old") then Old else New;
        Ok(FeedQuery(page, pageSize, order, i.category, i.tag, i.authorId, i.authorUsername, i.q))
  }

  // ---------------------------------------------------------------------
  // Orderings
  // ---------------------------------------------------------------------

  /** The sort key of the feed: `(published_at, created_at)`. */
  datatype Stamp = Stamp(publishedAt: Option<int>, createdAt: int)

  function PostStamp(p: Post): Stamp {
    Stamp(p.publishedAt, p.createdAt)
  }

  /** `a < b` on a nullable column in ascending order, where NULL sorts last. */
  predicate OptLt(a: Option<int>, b: Option<int>) {
    a.Some? && (b.None? || a.value < b.value)
  }

  /** `ORDER BY published_at ASC, created_at ASC`: `a` may come before `b`. */
  predicate OldestFirst(a: Stamp, b: Stamp) {
    OptLt(a.publishedAt, b.publishedAt) || (a.publishedAt == b.publishedAt && a.createdAt <= b.createdAt)
  }

  /**
   * `a` may come before `b` in the requested order; `DESC` is the exact
   * reverse of `ASC` (NULL first instead of last).
   */
  predicate Before(order: Order, a: Stamp, b: Stamp) {
    match order
    case Old => OldestFirst(a, b)
    case New => OldestFirst(b, a)
  }

  function FeedOrder(order: Order): (Post, Post) -> bool {
    (a: Post, b: Post) => Before(order, PostStamp(a), PostStamp(b))
  }

  lemma FeedOrderTotal(order: Order)
    ensures TotalPreorder(FeedOrder(order))
  {
    var le := FeedOrder(order);
    forall a: Post, b: Post, c: Post | le(a, b) && le(b, c)
      ensures le(a, c)
    {
      var sa, sb, sc := PostStamp(a), PostStamp(b), PostStamp(c);
      if order == Old {
        assert OldestFirst(sa, sb) && OldestFirst(sb, sc);
      } else {
        assert OldestFirst(sb, sa) && OldestFirst(sc, sb);
      }
    }
  }

  // ---------------------------------------------------------------------
  // getAllPosts
  // ---------------------------------------------------------------------

  /** A JavaScript truthy string: present and non-empty. */
  predicate Truthy(o: Option<string>) {
    o.Some? && o.value != ""
  }

  /** The joined author's username, NULL when the join finds no user. */
  function AuthorUsernameOf(users: seq<User>, p: Post): Option<string> {
    match FindUserById(users, p.authorId)
    case Some(u) => Some(u.username)
    case None => None
  }

  /**
   * The feed's `WHERE`: published with a publication time, and each filter
   * that is given (and truthy) holds. `q` matches the title, the excerpt or
   * the content, ignoring case; a NULL excerpt matches nothing.
   */
  predicate Matches(query: FeedQuery, users: seq<User>, p: Post)
    ensures Matches(query, users, p) ==> IsListed()(p)
  {
    && p.status == Published
    && p.publishedAt.Some?
    && (Truthy(query.category) ==> p.category == query.category.value)
    && (Truthy(query.tag) ==> p.tags.Some? && query.tag.value in p.tags.value)
    && (query.authorId.Some? && query.authorId.value != 0 ==> p.authorId == query.authorId.value)
    && (Truthy(query.authorUsername) ==> AuthorUsernameOf(users, p) == query.authorUsername)
    && (Truthy(query.q) ==>
          || ContainsIgnoreCase(p.title, query.q.value)
          || (p.excerpt.Some? && ContainsIgnoreCase(p.excerpt.value, query.q.value))
          || ContainsIgnoreCase(p.content, query.q.value))
  }

  function Matcher(query: FeedQuery, users: seq<User>): Post -> bool {
    (p: Post) => Matches(query, users, p)
  }

  /** A row of the feed: post columns plus the author's username and display name. */
  datatype FeedRow = FeedRow(
    id: int,
    title: string,
    slug: string,
    excerpt: Option<string>,
    category: string,
    tags: Option<seq<string>>,
    readingMinutes: int,
    coverImageUrl: Option<string>,
    publishedAt: Option<int>,
    createdAt: int,
    authorId: int,
    authorUsername: Option<string>,
    authorDisplayName: Option<string>)

  function FeedRowOf(users: seq<User>, p: Post): FeedRow {
    var author := FindUserById(users, p.authorId);
    FeedRow(p.id, p.title, p.slug, p.excerpt, p.category, p.tags, p.readingMinutes, p.coverImageUrl,
            p.publishedAt, p.createdAt, p.authorId,
            if author.Some? then Some(author.value.username) else None,
            if author.Some? then author.value.displayName else None)
  }

  datatype Pagination = Pagination(page: int, pageSize: int, total: nat, totalPages: int)

  datatype Feed = Feed(data: seq<FeedRow>, pagination: Pagination)

  /** `Math.max(1, Math.ceil(total / pageSize))`. */
  function TotalPages(total: nat, pageSize: int): (r: int)
    requires pageSize >= 1
    ensures r >= 1
    ensures r * pageSize >= total
    ensures total > 0 ==> (r - 1) * pageSize < total
    ensures total == 0 ==> r == 1
  {
    var pages := (total + pageSize - 1) / pageSize;
    if pages < 1 then 1 else pages
  }

  /** `(page - 1) * pageSize`: the number of matches on the pages before `page`. */
  function Offset(page: int, pageSize: int): nat
    requires page >= 1 && pageSize >= 1
  {
    var n := page - 1;
    assert n * pageSize >= 0 by {
      MulNonNegative(n, pageSize);
    }
    n * pageSize
  }

  lemma MulNonNegative(a: nat, b: nat)
    ensures a * b >= 0
  {
  }

  /** Every matching post, in the requested order. */
  function MatchingSorted(query: FeedQuery, posts: seq<Post>, users: seq<User>): seq<Post> {
    SortBy(Filter(posts, Matcher(query, users)), FeedOrder(query.order))
  }

  /** The feed for a validated query: one page of the ordered matches, and the totals. */
  function FeedOf(query: FeedQuery, posts: seq<Post>, users: seq<User>): (r: Feed)
    requires ValidQuery(query)
    ensures |r.data| <= query.pageSize
    ensures r.pagination.page == query.page && r.pagination.pageSize == query.pageSize
    ensures r.pagination.total == |Filter(posts, Matcher(query, users))|
    ensures r.pagination.totalPages >= 1
    ensures r.pagination.totalPages * query.pageSize >= r.pagination.total
    ensures Offset(query.page, query.pageSize) >= r.pagination.total ==> r.data == []
  {
    var total := |Filter(posts, Matcher(query, users))|;
    var page := FeedPage(query, posts, users);
    Feed(seq(|page|, i requires 0 <= i < |page| => FeedRowOf(users, page[i])),
         Pagination(query.page, query.pageSize, total, TotalPages(total, query.pageSize)))
  }

  /** The `getAllPosts` procedure: validation, then the feed. */
  function GetAllPosts(posts: seq<Post>, users: seq<User>, input: Option<FeedInput>): (r: Result<Feed>)
    ensures r.Ok? <==> ParseFeedInput(input).Ok?
    ensures r.Ok? ==> |r.value.data| <= MaxPageSize && r.value.pagination.totalPages >= 1
  {
    match ParseFeedInput(input)
    case Err(e) => Err(e)
    case Ok(query) => Ok(FeedOf(query, posts, users))
  }

  /** Every row of the feed is a matching post joined to its author. */
  lemma FeedRowsMatch(query: FeedQuery, posts: seq<Post>, users: seq<User>, i: nat)
    requires ValidQuery(query)
    requires i < |FeedOf(query, posts, users).data|
    ensures exists p :: p in posts && Matches(query, users, p) && FeedOf(query, posts, users).data[i] == FeedRowOf(users, p)
  {
    var page := FeedPage(query, posts, users);
    FeedOrderTotal(query.order);
    SortedSelectionPage(posts, Matcher(query, users), FeedOrder(query.order), Offset(query.page, query.pageSize), query.pageSize);
    assert page[i] in posts && Matcher(query, users)(page[i]);
  }

  /** The posts on the requested page, in order. */
  function FeedPage(query: FeedQuery, posts: seq<Post>, users: seq<User>): seq<Post>
    requires ValidQuery(query)
  {
    Page(MatchingSorted(query, posts, users), Offset(query.page, query.pageSize), query.pageSize)
  }

  /** Each row that satisfies every filter is counted in `total`, once per post. */
  lemma FeedTotalCounts(query: FeedQuery, posts: seq<Post>, users: seq<User>, p: Post)
    requires ValidQuery(query)
    ensures multiset(MatchingSorted(query, posts, users))[p] == if Matches(query, users, p) then multiset(posts)[p] else 0
    ensures |MatchingSorted(query, posts, users)| == FeedOf(query, posts, users).pagination.total
  {
    FilterCount(posts, Matcher(query, users));
  }

  /** The page is in the requested order: newest first, or oldest first. */
  lemma FeedSorted(query: FeedQuery, posts: seq<Post>, users: seq<User>)
    requires ValidQuery(query)
    ensures var data := FeedOf(query, posts, users).data;
      forall i, j :: 0 <= i < j < |data| ==>
        Before(query.order, Stamp(data[i].publishedAt, data[i].createdAt), Stamp(data[j].publishedAt, data[j].createdAt))
  {
    var page := FeedPage(query, posts, users);
    FeedOrderTotal(query.order);
    SortedSelectionPage(posts, Matcher(query, users), FeedOrder(query.order), Offset(query.page, query.pageSize), query.pageSize);
    var data := FeedOf(query, posts, users).data;
    forall i, j | 0 <= i < j < |data|
      ensures Before(query.order, Stamp(data[i].publishedAt, data[i].createdAt), Stamp(data[j].publishedAt, data[j].createdAt))
    {
      assert FeedOrder(query.order)(page[i], page[j]);
    }
  }

  /**
   * Page `page` holds the matches from position `(page - 1) * pageSize` on:
   * all of them up to `pageSize`.
   */
  lemma FeedPageSize(query: FeedQuery, posts: seq<Post>, users: seq<User>)
    requires ValidQuery(query)
    ensures var f := FeedOf(query, posts, users);
      var offset := Offset(query.page, query.pageSize);
      offset < f.pagination.total ==>
        |f.data| == if f.pagination.total - offset < query.pageSize then f.pagination.total - offset else query.pageSize
  {
  }

  /**
   * Page `page` holds exactly the ordered matches from position
   * `(page - 1) * pageSize` on, each joined to its author: `pageSize` of
   * them, or every remaining one when fewer remain, and none past the end.
   */
  lemma FeedPageRows(query: FeedQuery, posts: seq<Post>, users: seq<User>)
    requires ValidQuery(query)
    ensures var f := FeedOf(query, posts, users);
      var offset := Offset(query.page, query.pageSize);
      var total := f.pagination.total;
      |f.data| == if offset >= total then 0 else if total - offset < query.pageSize then total - offset else query.pageSize
    ensures var f := FeedOf(query, posts, users);
      var all := MatchingSorted(query, posts, users);
      var offset := Offset(query.page, query.pageSize);
      forall k :: 0 <= k < |f.data| ==> offset + k < |all| && f.data[k] == FeedRowOf(users, all[offset + k])
  {
  }

  /** An empty table: no rows, a total of 0, and one (empty) page. */
  lemma FeedEmptyTable(query: FeedQuery, users: seq<User>)
    requires ValidQuery(query)
    ensures FeedOf(query, [], users) == Feed([], Pagination(query.page, query.pageSize, 0, 1))
  {
  }

  // ---------------------------------------------------------------------
  // getPostBySlug
  // ---------------------------------------------------------------------

  /** A single post with its author's username, display name and bio. */
  datatype PostDetail = PostDetail(
    id: int,
    title: string,
    slug: string,
    content: string,
    excerpt: Option<string>,
    category: string,
    tags: Option<seq<string>>,
    readingMinutes: int,
    coverImageUrl: Option<string>,
    status: Status,
    publishedAt: Option<int>,
    createdAt: int,
    updatedAt: int,
    authorId: int,
    authorUsername: Option<string>,
    authorDisplayName: Option<string>,
    authorBio: Option<string>)

  function PostDetailOf(users: seq<User>, p: Post): PostDetail {
    var author := FindUserById(users, p.authorId);
    PostDetail(p.id, p.title, p.slug, p.content, p.excerpt, p.category, p.tags, p.readingMinutes,
               p.coverImageUrl, p.status, p.publishedAt, p.createdAt, p.updatedAt, p.authorId,
               if author.Some? then Some(author.value.username) else None,
               if author.Some? then author.value.displayName else None,
               if author.Some? then author.value.bio else None)
  }

  function PublishedWithSlug(slug: string): Post -> bool {
    (p: Post) => p.slug == slug && p.status == Published
  }

  /**
   * `getPostBySlug`: the published post with that slug, or null; a draft is
   * not found. An empty slug is rejected.
   */
  function GetPostBySlug(posts: seq<Post>, users: seq<User>, slug: string): (r: Result<Option<PostDetail>>)
    ensures r.Err? <==> slug == ""
    ensures r.Ok? ==> (r.value.None? <==> forall i :: 0 <= i < |posts| ==> !(posts[i].slug == slug && posts[i].status == Published))
    ensures r.Ok? && r.value.Some? ==>
      exists i :: 0 <= i < |posts| && posts[i].slug == slug && posts[i].status == Published &&
        r.value.value == PostDetailOf(users, posts[i])
  {
    if slug == "" then Err(BadRequest)
    else
      var found := Filter(posts, PublishedWithSlug(slug));
      FilterMembers(posts, PublishedWithSlug(slug));
      if found == [] then
        assert forall i :: 0 <= i < |posts| ==> posts[i] in posts;
        Ok(None)
      else
        assert found[0] in found;
        Ok(Some(PostDetailOf(users, found[0])))
  }

  /** With unique slugs, a published post is found by its slug, and it is that post. */
  lemma GetPostBySlugFinds(posts: seq<Post>, users: seq<User>, k: nat)
    requires Pairwise(posts, DistinctPosts)
    requires k < |posts| && posts[k].status == Published && posts[k].slug != ""
    ensures GetPostBySlug(posts, users, posts[k].slug) == Ok(Some(PostDetailOf(users, posts[k])))
  {
    var r := GetPostBySlug(posts, users, posts[k].slug);
    var i :| 0 <= i < |posts| && posts[i].slug == posts[k].slug && posts[i].status == Published &&
      r.value.value == PostDetailOf(users, posts[i]);
    assert i < k ==> DistinctPosts(posts[i], posts[k]);
    assert k < i ==> DistinctPosts(posts[k], posts[i]);
  }

  // ---------------------------------------------------------------------
  // getSitemapPosts
  // ---------------------------------------------------------------------

  datatype SitemapRow = SitemapRow(slug: string, publishedAt: Option<int>, updatedAt: int, category: string)

  function IsListed(): Post -> bool {
    (p: Post) => p.status == Published && p.publishedAt.Some?
  }

  /** `ORDER BY published_at DESC`: `a` was published no earlier than `b`. */
  function PublishedDesc(): (Post, Post) -> bool {
    (a: Post, b: Post) => !OptLt(a.publishedAt, b.publishedAt)
  }

  lemma PublishedDescTotal()
    ensures TotalPreorder(PublishedDesc())
  {
  }

  function SitemapPosts(posts: seq<Post>): seq<Post> {
    SortBy(Filter(posts, IsListed()), PublishedDesc())
  }

  /** `getSitemapPosts`: every published post with a publication time, newest first. */
  function GetSitemapPosts(posts: seq<Post>): (r: seq<SitemapRow>)
    ensures |r| == |Filter(posts, IsListed())|
  {
    var listed := SitemapPosts(posts);
    seq(|listed|, i requires 0 <= i < |listed| => SitemapRowOf(listed[i]))
  }

  function SitemapRowOf(p: Post): SitemapRow {
    SitemapRow(p.slug, p.publishedAt, p.updatedAt, p.category)
  }

  /** The sitemap rows are the listed posts' slug, times and category, in order. */
  lemma SitemapRows(posts: seq<Post>)
    ensures var r := GetSitemapPosts(posts);
      var listed := SitemapPosts(posts);
      |r| == |listed| && forall i :: 0 <= i < |r| ==> r[i] == SitemapRowOf(listed[i])
  {
  }

  /** Every published post with a publication time has its row in the sitemap. */
  lemma SitemapRowsComplete(posts: seq<Post>, p: Post)
    requires p in posts && p.status == Published && p.publishedAt.Some?
    ensures SitemapRowOf(p) in GetSitemapPosts(posts)
  {
    var listed := SitemapPosts(posts);
    SelectionMembers(posts, IsListed(), PublishedDesc());
    assert IsListed()(p);
    var k :| 0 <= k < |listed| && listed[k] == p;
    assert GetSitemapPosts(posts)[k] == SitemapRowOf(p);
  }

  /** The sitemap lists each published post exactly as often as the table holds it, and drafts never. */
  lemma SitemapCounts(posts: seq<Post>)
    ensures forall p ::
      multiset(SitemapPosts(posts))[p] == (if p.status == Published && p.publishedAt.Some? then multiset(posts)[p] else 0)
  {
    FilterCount(posts, IsListed());
  }

  /** The sitemap's publication times are all present and never increase down the list. */
  lemma SitemapNewestFirst(posts: seq<Post>)
    ensures var r := GetSitemapPosts(posts);
      forall i, j :: 0 <= i < j < |r| ==>
        (r[i].publishedAt.Some? && r[j].publishedAt.Some? && r[i].publishedAt.value >= r[j].publishedAt.value)
  {
    var listed := SitemapPosts(posts);
    PublishedDescTotal();
    SortedSelection(posts, IsListed(), PublishedDesc());
    var r := GetSitemapPosts(posts);
    forall i, j | 0 <= i < j < |r|
      ensures r[i].publishedAt.Some? && r[j].publishedAt.Some? && r[i].publishedAt.value >= r[j].publishedAt.value
    {
      assert IsListed()(listed[i]) && IsListed()(listed[j]);
      assert PublishedDesc()(listed[i], listed[j]);
    }
  }

  /** Every sitemap row is the row of a published post with a publication time. */
  lemma SitemapRowsSound(posts: seq<Post>, i: nat)
    requires i < |GetSitemapPosts(posts)|
    ensures exists p ::
      p in posts && p.status == Published && p.publishedAt.Some? && GetSitemapPosts(posts)[i] == SitemapRowOf(p)
  {
    var listed := SitemapPosts(posts);
    SelectionMembers(posts, IsListed(), PublishedDesc());
    assert listed[i] in listed;
    assert IsListed()(listed[i]);
  }

  // ---------------------------------------------------------------------
  // getAllAuthors
  // ---------------------------------------------------------------------

  datatype AuthorRow = AuthorRow(id: int, username: string, displayName: Option<string>, bio: Option<string>, postsCount: int)

  function IsActive(): User -> bool {
    (u: User) => u.isActive
  }

  /** `ORDER BY posts_count DESC, username ASC`. */
  function AuthorOrder(): (User, User) -> bool {
    (a: User, b: User) => a.postsCount > b.postsCount || (a.postsCount == b.postsCount && StrLe(a.username, b.username))
  }

  lemma AuthorOrderTotal()
    ensures TotalPreorder(AuthorOrder())
  {
    var le := AuthorOrder();
    forall a: User, b: User
      ensures le(a, b) || le(b, a)
    {
      StrLeTotal(a.username, b.username);
    }
    forall a: User, b: User, c: User | le(a, b) && le(b, c)
      ensures le(a, c)
    {
      if a.postsCount == b.postsCount == c.postsCount {
        StrLeTransitive(a.username, b.username, c.username);
      }
    }
  }

  function ActiveAuthors(users: seq<User>): seq<User> {
    SortBy(Filter(users, IsActive()), AuthorOrder())
  }

  /** `getAllAuthors`: the active users, most posts first, ties by username. */
  function GetAllAuthors(users: seq<User>): (r: seq<AuthorRow>)
    ensures |r| == |Filter(users, IsActive())|
  {
    var active := ActiveAuthors(users);
    seq(|active|, i requires 0 <= i < |active| => AuthorRowOf(active[i]))
  }

  function AuthorRowOf(u: User): AuthorRow {
    AuthorRow(u.id, u.username, u.displayName, u.bio, u.postsCount)
  }

  /** The author rows are the active users' public columns, in order. */
  lemma AuthorRows(users: seq<User>)
    ensures var r := GetAllAuthors(users);
      var active := ActiveAuthors(users);
      |r| == |active| && forall i :: 0 <= i < |r| ==> r[i] == AuthorRowOf(active[i])
  {
  }

  /** Every active user has a row in the author list. */
  lemma AuthorRowsComplete(users: seq<User>, u: User)
    requires u in users && u.isActive
    ensures AuthorRowOf(u) in GetAllAuthors(users)
  {
    var active := ActiveAuthors(users);
    SelectionMembers(users, IsActive(), AuthorOrder());
    assert IsActive()(u);
    var k :| 0 <= k < |active| && active[k] == u;
    assert GetAllAuthors(users)[k] == AuthorRowOf(u);
  }

  /** Every author row is the row of an active user: inactive users are never listed. */
  lemma AuthorRowsSound(users: seq<User>, i: nat)
    requires i < |GetAllAuthors(users)|
    ensures exists u :: u in users && u.isActive && GetAllAuthors(users)[i] == AuthorRowOf(u)
  {
    var active := ActiveAuthors(users);
    SelectionMembers(users, IsActive(), AuthorOrder());
    assert active[i] in active;
    assert IsActive()(active[i]);
  }

  /**
   * Only active users are listed, each once; counts never increase down the
   * list, and equal counts are in username order.
   */
  lemma AuthorsSpec(users: seq<User>)
    ensures forall u :: multiset(ActiveAuthors(users))[u] == if u.isActive then multiset(users)[u] else 0
    ensures var r := GetAllAuthors(users);
      forall i, j :: 0 <= i < j < |r| ==>
        r[i].postsCount >= r[j].postsCount &&
        (r[i].postsCount == r[j].postsCount ==> StrLe(r[i].username, r[j].username))
  {
    var active := ActiveAuthors(users);
    FilterCount(users, IsActive());
    AuthorOrderTotal();
    SortedSelection(users, IsActive(), AuthorOrder());
    var r := GetAllAuthors(users);
    forall i, j | 0 <= i < j < |r|
      ensures r[i].postsCount >= r[j].postsCount
      ensures r[i].postsCount == r[j].postsCount ==> StrLe(r[i].username, r[j].username)
    {
      assert AuthorOrder()(active[i], active[j]);
    }
  }

  // ---------------------------------------------------------------------
  // getRelatedPosts
  // ---------------------------------------------------------------------

  const DefaultRelatedLimit := 4
  const MaxRelatedLimit := 10

  datatype RelatedRow = RelatedRow(
    id: int,
    title: string,
    slug: string,
    excerpt: Option<string>,
    coverImageUrl: Option<string>,
    publishedAt: Option<int>,
    readingMinutes: int)

  /** `tags && baseTags`: the arrays share an element; a NULL array shares nothing. */
  predicate Overlaps(tags: Option<seq<string>>, baseTags: seq<string>) {
    tags.Some? && exists t :: t in tags.value && t in baseTags
  }

  /**
   * The `OR` of the tag clause (present when the source has tags) and the
   * category clause (present when its category is non-empty); with neither
   * clause the `OR` is dropped and imposes nothing.
   */
  predicate SharesTopic(base: Post, p: Post) {
    var tagClause := base.tags.Some? && |base.tags.value| > 0;
    var categoryClause := base.category != "";
    if !tagClause && !categoryClause then true
    else (tagClause && Overlaps(p.tags, base.tags.value)) || (categoryClause && p.category == base.category)
  }

  predicate IsRelated(base: Post, p: Post) {
    p.status == Published && p.publishedAt.Some? && p.id != base.id && SharesTopic(base, p)
  }

  /**
   * A post always shares a topic with itself, so the `id <> baseId` clause
   * is what keeps the source out of its own related list.
   */
  lemma SharesTopicSelf(base: Post)
    ensures SharesTopic(base, base)
    ensures !IsRelated(base, base)
  {
    if base.tags.Some? && |base.tags.value| > 0 {
      assert base.tags.value[0] in base.tags.value;
    }
  }

  function RelatedTo(base: Post): Post -> bool {
    (p: Post) => IsRelated(base, p)
  }

  function RelatedRowOf(p: Post): RelatedRow {
    RelatedRow(p.id, p.title, p.slug, p.excerpt, p.coverImageUrl, p.publishedAt, p.readingMinutes)
  }

  /** The related posts of `base`, newest first, at most `limit` of them. */
  function RelatedPosts(posts: seq<Post>, base: Post, limit: nat): (r: seq<Post>)
    ensures |r| <= limit
  {
    Page(SortBy(Filter(posts, RelatedTo(base)), FeedOrder(New)), 0, limit)
  }

  /** The related posts are posts of the table related to `base`, newest first. */
  lemma RelatedPostsSpec(posts: seq<Post>, base: Post, limit: nat)
    ensures var r := RelatedPosts(posts, base, limit);
      SortedBy(r, FeedOrder(New)) && forall i :: 0 <= i < |r| ==> r[i] in posts && IsRelated(base, r[i])
  {
    FeedOrderTotal(New);
    SortedSelectionPage(posts, RelatedTo(base), FeedOrder(New), 0, limit);
    var r := RelatedPosts(posts, base, limit);
    forall i | 0 <= i < |r|
      ensures IsRelated(base, r[i])
    {
      assert RelatedTo(base)(r[i]);
    }
  }

  /**
   * No related post is left out unless the list is full: there are `limit`
   * related posts, or all of them when fewer exist, and a related post of
   * the table that is not listed is no newer than any that is.
   */
  lemma RelatedPostsComplete(posts: seq<Post>, base: Post, limit: nat)
    ensures var n := |Filter(posts, RelatedTo(base))|;
      |RelatedPosts(posts, base, limit)| == if n < limit then n else limit
    ensures var r := RelatedPosts(posts, base, limit);
      forall p :: p in posts && IsRelated(base, p) && p !in r ==>
        |r| == limit && forall i :: 0 <= i < |r| ==> Before(New, PostStamp(r[i]), PostStamp(p))
  {
    var keep := RelatedTo(base);
    var all := SortBy(Filter(posts, keep), FeedOrder(New));
    FeedOrderTotal(New);
    SortBySorted(Filter(posts, keep), FeedOrder(New));
    FilterMembers(posts, keep);
    forall p | p in posts && IsRelated(base, p) && p !in RelatedPosts(posts, base, limit)
      ensures var r := RelatedPosts(posts, base, limit);
        |r| == limit && forall i :: 0 <= i < |r| ==> Before(New, PostStamp(r[i]), PostStamp(p))
    {
      assert keep(p);
      assert p in multiset(all);
      LimitLeavesLater(all, limit, FeedOrder(New), p);
    }
  }

  function RelatedRows(related: seq<Post>): (r: seq<RelatedRow>)
    ensures |r| == |related| && forall i :: 0 <= i < |r| ==> r[i] == RelatedRowOf(related[i])
  {
    seq(|related|, i requires 0 <= i < |related| => RelatedRowOf(related[i]))
  }

  /**
   * `getRelatedPosts`: the source post is the first with the slug, of any
   * status; no source gives `[]`. The limit defaults to 4 and must lie in
   * 1..10, and the slug must be non-empty.
   */
  function GetRelatedPosts(posts: seq<Post>, slug: string, limit: Option<int>): (r: Result<seq<RelatedRow>>)
    ensures r.Err? <==> slug == "" || (limit.Some? && !(1 <= limit.value <= MaxRelatedLimit))
    ensures r.Ok? ==> |r.value| <= (if limit.Some? then limit.value else DefaultRelatedLimit)
    ensures r.Ok? && FindPostBySlug(posts, slug).None? ==> r.value == []
  {
    if slug == "" || (limit.Some? && !(1 <= limit.value <= MaxRelatedLimit)) then Err(BadRequest)
    else
      var n := if limit.Some? then limit.value else DefaultRelatedLimit;
      match FindPostBySlug(posts, slug)
      case None => Ok([])
      case Some(b) => Ok(RelatedRows(RelatedPosts(posts, posts[b], n)))
  }

  /**
   * Every related row is another published post that shares a tag or the
   * category with the source (when the source has either).
   */
  lemma RelatedRowsRelated(posts: seq<Post>, slug: string, limit: Option<int>, i: nat)
    requires GetRelatedPosts(posts, slug, limit).Ok? && FindPostBySlug(posts, slug).Some?
    requires i < |GetRelatedPosts(posts, slug, limit).value|
    ensures var base := posts[FindPostBySlug(posts, slug).value];
      var row := GetRelatedPosts(posts, slug, limit).value[i];
      row.id != base.id && exists p :: p in posts && IsRelated(base, p) && row == RelatedRowOf(p)
  {
    var base := posts[FindPostBySlug(posts, slug).value];
    var n := if limit.Some? then limit.value else DefaultRelatedLimit;
    var related := RelatedPosts(posts, base, n);
    RelatedPostsSpec(posts, base, n);
    assert GetRelatedPosts(posts, slug, limit).value == RelatedRows(related);
    assert related[i] in posts && IsRelated(base, related[i]);
  }

  /**
   * `getRelatedPosts` lists `limit` related posts, or all of them when
   * fewer exist; a related post that is not listed was published no later
   * than every listed one.
   */
  lemma RelatedRowsComplete(posts: seq<Post>, slug: string, limit: Option<int>)
    requires GetRelatedPosts(posts, slug, limit).Ok? && FindPostBySlug(posts, slug).Some?
    ensures var base := posts[FindPostBySlug(posts, slug).value];
      var rows := GetRelatedPosts(posts, slug, limit).value;
      var n := if limit.Some? then limit.value else DefaultRelatedLimit;
      var m := |Filter(posts, RelatedTo(base))|;
      |rows| == if m < n then m else n
    ensures var base := posts[FindPostBySlug(posts, slug).value];
      var rows := GetRelatedPosts(posts, slug, limit).value;
      var n := if limit.Some? then limit.value else DefaultRelatedLimit;
      forall p :: p in posts && IsRelated(base, p) && RelatedRowOf(p) !in rows ==>
        |rows| == n && forall i :: 0 <= i < |rows| ==> OptLe(p.publishedAt, rows[i].publishedAt)
  {
    var base := posts[FindPostBySlug(posts, slug).value];
    var n := if limit.Some? then limit.value else DefaultRelatedLimit;
    var related := RelatedPosts(posts, base, n);
    var rows := GetRelatedPosts(posts, slug, limit).value;
    assert rows == RelatedRows(related);
    RelatedPostsComplete(posts, base, n);
    forall p | p in posts && IsRelated(base, p) && RelatedRowOf(p) !in rows
      ensures |rows| == n && forall i :: 0 <= i < |rows| ==> OptLe(p.publishedAt, rows[i].publishedAt)
    {
      assert forall i :: 0 <= i < |related| ==> RelatedRowOf(related[i]) in rows;
      assert p !in related;
      forall i | 0 <= i < |rows|
        ensures OptLe(p.publishedAt, rows[i].publishedAt)
      {
        assert Before(New, PostStamp(related[i]), PostStamp(p));
      }
    }
  }

  /** The related rows are newest first. */
  lemma RelatedNewestFirst(posts: seq<Post>, slug: string, limit: Option<int>)
    requires GetRelatedPosts(posts, slug, limit).Ok?
    ensures var r := GetRelatedPosts(posts, slug, limit).value;
      forall i, j :: 0 <= i < j < |r| ==> OptLe(r[j].publishedAt, r[i].publishedAt)
  {
    var r := GetRelatedPosts(posts, slug, limit).value;
    if FindPostBySlug(posts, slug).Some? {
      var base := posts[FindPostBySlug(posts, slug).value];
      var n := if limit.Some? then limit.value else DefaultRelatedLimit;
      var related := RelatedPosts(posts, base, n);
      RelatedPostsSpec(posts, base, n);
      assert r == RelatedRows(related);
      forall i, j | 0 <= i < j < |r|
        ensures OptLe(r[j].publishedAt, r[i].publishedAt)
      {
        assert FeedOrder(New)(related[i], related[j]);
      }
    }
  }

  /** `a <= b` on a nullable column in ascending order, NULL last. */
  predicate OptLe(a: Option<int>, b: Option<int>) {
    a == b || OptLt(a, b)
  }
}
