/**
 * The server action behind the "new post" form: it normalises the form,
 * resolves the author, derives a slug that no post has yet, writes the
 * post and recomputes every author's `posts_count`, then redirects to the
 * new post's page.
 */
module Actions {
  import opened Wrappers
  import opened Text
  import opened SqlOps
  import opened Schema
  import opened Slugs

  /** JavaScript's `value || fallback` on a string that may be null: null and "" fall back. */
  function OrDefault(o: Option<string>, fallback: string): (r: string)
    ensures o.Some? && o.value != "" ==> r == o.value
    ensures o.None? || o.value == "" ==> r == fallback
  {
    if o.Some? && o.value != "" then o.value else fallback
  }

  // ---------------------------------------------------------------------
  // ensureUniqueSlug
  // ---------------------------------------------------------------------

  function SlugsOf(posts: seq<Post>): set<string> {
    set p | p in posts :: p.slug
  }

  /**
   * The k-th slug `ensureUniqueSlug` tries for `base`: first `base` itself
   * (or "post" when `base` is empty), then `base-2`, `base-3`, ...
   * The numbered candidates use `base` as given, even when it is empty.
   */
  function Candidate(base: string, k: nat): (r: string)
    requires k >= 1
    ensures r != []
  {
    if k == 1 then (if base == "" then "post" else base)
    else base + "-" + NatToString(k)
  }

  /** No slug is tried twice, so each failed try uses up one taken slug. */
  lemma CandidatesDistinct(base: string, j: nat, k: nat)
    requires 1 <= j < k
    ensures Candidate(base, j) != Candidate(base, k)
  {
    var b := base + "-";
    if j == 1 {
      if base == "" {
        assert Candidate(base, j)[0] == 'p';
        assert Candidate(base, k)[0] == '-';
      } else {
        assert |Candidate(base, k)| > |base|;
      }
    } else {
      NatToStringInjective(j, k);
      assert Candidate(base, j)[|b|..] == NatToString(j);
      assert Candidate(base, k)[|b|..] == NatToString(k);
    }
  }

  /** With an empty base the numbered candidates are "-2", "-3", ..., never "post-2". */
  lemma EmptyBaseCandidates(k: nat)
    requires k >= 2
    ensures Candidate("", k) == "-" + NatToString(k)
    ensures Candidate("", k)[0] == '-'
  {
  }

  /**
   * `slug` is the first candidate for `base` that no post has: it is free,
   * and every candidate tried before it is taken.
   */
  ghost predicate FirstFree(posts: seq<Post>, base: string, slug: string) {
    exists k: nat :: k >= 1 && slug == Candidate(base, k) && slug !in SlugsOf(posts) &&
      forall j: nat :: 1 <= j < k ==> Candidate(base, j) in SlugsOf(posts)
  }

  /** There is only one first free candidate. */
  lemma FirstFreeUnique(posts: seq<Post>, base: string, s1: string, s2: string)
    requires FirstFree(posts, base, s1) && FirstFree(posts, base, s2)
    ensures s1 == s2
  {
    var k1: nat :| k1 >= 1 && s1 == Candidate(base, k1) && s1 !in SlugsOf(posts) &&
      forall j: nat :: 1 <= j < k1 ==> Candidate(base, j) in SlugsOf(posts);
    var k2: nat :| k2 >= 1 && s2 == Candidate(base, k2) && s2 !in SlugsOf(posts) &&
      forall j: nat :: 1 <= j < k2 ==> Candidate(base, j) in SlugsOf(posts);
  }

  /**
   * Tries the candidates in order, one lookup per try, and returns the first
   * one that no post has. The loop ends because the table holds finitely
   * many slugs and no candidate repeats.
   */
  method EnsureUniqueSlug(posts: seq<Post>, base: string) returns (slug: string)
    ensures slug !in SlugsOf(posts)
    ensures FirstFree(posts, base, slug)
  {
    slug := Candidate(base, 1);
    var i: nat := 1;
    ghost var tried: set<string> := {};
    while FindPostBySlug(posts, slug).Some?
      invariant i >= 1 && slug == Candidate(base, i)
      invariant forall j: nat :: 1 <= j < i ==> Candidate(base, j) in SlugsOf(posts)
      invariant tried <= SlugsOf(posts)
      invariant forall s :: s in tried ==> exists j: nat :: 1 <= j < i && s == Candidate(base, j)
      decreases |SlugsOf(posts) - tried|
    {
      FoundIsTaken(posts, slug);
      NotTriedYet(base, tried, i);
      Shrinks(SlugsOf(posts), tried, slug);
      AllTakenBelow(posts, base, i);
      tried := tried + {slug};
      i := i + 1;
      slug := base + "-" + NatToString(i);
    }
    FoundIsTaken(posts, slug);
  }

  lemma FoundIsTaken(posts: seq<Post>, slug: string)
    ensures FindPostBySlug(posts, slug).Some? <==> slug in SlugsOf(posts)
  {
    var r := FindPostBySlug(posts, slug);
    if r.Some? {
      assert posts[r.value] in posts;
    }
    if slug in SlugsOf(posts) {
      var p :| p in posts && p.slug == slug;
      var at :| 0 <= at < |posts| && posts[at] == p;
    }
  }

  lemma AllTakenBelow(posts: seq<Post>, base: string, i: nat)
    requires i >= 1
    requires forall j: nat :: 1 <= j < i ==> Candidate(base, j) in SlugsOf(posts)
    requires Candidate(base, i) in SlugsOf(posts)
    ensures forall j: nat :: 1 <= j < i + 1 ==> Candidate(base, j) in SlugsOf(posts)
  {
  }

  lemma NotTriedYet(base: string, tried: set<string>, i: nat)
    requires i >= 1
    requires forall s :: s in tried ==> exists j: nat :: 1 <= j < i && s == Candidate(base, j)
    ensures Candidate(base, i) !in tried
  {
    forall s | s in tried
      ensures s != Candidate(base, i)
    {
      var j: nat :| 1 <= j < i && s == Candidate(base, j);
      CandidatesDistinct(base, j, i);
    }
  }

  /** Moving one more taken slug into the tried set shrinks what is left to try. */
  lemma Shrinks(all: set<string>, tried: set<string>, x: string)
    requires x in all && x !in tried
    ensures |all - (tried + {x})| < |all - tried|
  {
    assert all - (tried + {x}) == (all - tried) - {x};
  }

  // ---------------------------------------------------------------------
  // getAuthorId
  // ---------------------------------------------------------------------

  /** The first user whose username is exactly `name` (usernames are unique). */
  function FindUserByName(users: seq<User>, name: string): (r: Option<nat>)
    ensures r.None? <==> forall i :: 0 <= i < |users| ==> users[i].username != name
    ensures r.Some? ==> r.value < |users| && users[r.value].username == name
  {
    if users == [] then None
    else if users[0].username == name then Some(0)
    else match FindUserByName(users[1..], name)
      case None => None
      case Some(i) => Some(i + 1)
  }

  /** The user found by name is the first in table order to hold it. */
  lemma {:induction false} FindUserByNameFirst(users: seq<User>, name: string)
    ensures var r := FindUserByName(users, name);
      r.Some? ==> forall i :: 0 <= i < r.value ==> users[i].username != name
  {
    if users != [] && users[0].username != name {
      FindUserByNameFirst(users[1..], name);
    }
  }

  const NoUsersMessage := "No users found. Please run seed first."

  /**
   * The id of the user named `(authorUsername || "guest").trim()`; when no
   * user has that name, the id of the first user in the table; when the
   * table is empty, the action fails.
   */
  function GetAuthorId(users: seq<User>, authorUsername: Option<string>): (r: Result<int>)
    ensures r.Err? <==> users == []
    ensures r.Err? ==> r.error == NoUsersMessage
    ensures r.Ok? ==> r.value in UserIds(users)
    ensures var name := Trim(OrDefault(authorUsername, "guest"));
      (exists i :: 0 <= i < |users| && users[i].username == name) ==>
        r.Ok? && exists i :: 0 <= i < |users| && users[i].username == name && users[i].id == r.value
    ensures var name := Trim(OrDefault(authorUsername, "guest"));
      users != [] && (forall i :: 0 <= i < |users| ==> users[i].username != name) ==>
        r == Ok(users[0].id)
  {
    var name := Trim(OrDefault(authorUsername, "guest"));
    match FindUserByName(users, name)
    case Some(i) =>
      IdOfRow(users, i);
      Ok(users[i].id)
    case None =>
      if users == [] then Err(NoUsersMessage)
      else
        IdOfRow(users, 0);
        Ok(users[0].id)
  }

  lemma IdOfRow(users: seq<User>, i: nat)
    requires i < |users|
    ensures users[i].id in UserIds(users)
  {
    assert users[i] in users;
  }

  /** With unique usernames, the user found by name is the only one with that name. */
  lemma GetAuthorIdByName(users: seq<User>, authorUsername: Option<string>, k: nat)
    requires UsersConsistent(users)
    requires k < |users| && users[k].username == Trim(OrDefault(authorUsername, "guest"))
    ensures GetAuthorId(users, authorUsername) == Ok(users[k].id)
  {
    var name := Trim(OrDefault(authorUsername, "guest"));
    var r := GetAuthorId(users, authorUsername);
    assert users[k].username == name;
    var i :| 0 <= i < |users| && users[i].username == name && users[i].id == r.value;
    assert i < k ==> DistinctUsers(users[i], users[k]);
    assert k < i ==> DistinctUsers(users[k], users[i]);
  }

  // ---------------------------------------------------------------------
  // The insert with ON CONFLICT (slug) DO UPDATE
  // ---------------------------------------------------------------------

  /**
   * `INSERT ... ON CONFLICT (slug) DO UPDATE SET title, content, category,
   * author_id, published_at = excluded.*`: when a post already has the new
   * row's slug that post takes the five columns from the new row, otherwise
   * the row is appended.
   */
  function UpsertBySlug(posts: seq<Post>, row: Post): (r: seq<Post>)
    ensures row.slug !in SlugsOf(posts) ==> r == posts + [row]
    ensures row.slug in SlugsOf(posts) ==> |r| == |posts|
  {
    match FindPostBySlug(posts, row.slug)
    case None => posts + [row]
    case Some(i) =>
      assert posts[i] in posts;
      posts[i := posts[i].(title := row.title, content := row.content, category := row.category,
                           authorId := row.authorId, publishedAt := row.publishedAt)]
  }

  /**
   * After an upsert into a table with unique slugs, exactly one row has the
   * new slug and it carries the new title, content, category, author and
   * publication time; every other row is untouched, and slugs stay unique.
   */
  lemma UpsertBySlugSpec(posts: seq<Post>, row: Post)
    requires Pairwise(posts, DistinctPosts)
    requires forall i :: 0 <= i < |posts| ==> posts[i].id != row.id
    ensures var r := UpsertBySlug(posts, row);
      && (exists i :: 0 <= i < |r| && r[i].slug == row.slug
           && r[i].title == row.title && r[i].content == row.content
           && r[i].category == row.category && r[i].authorId == row.authorId
           && r[i].publishedAt == row.publishedAt)
      && (forall i, j :: 0 <= i < j < |r| ==> r[i].slug != r[j].slug)
      && (forall i :: 0 <= i < |posts| && posts[i].slug != row.slug ==> r[i] == posts[i])
  {
    var r := UpsertBySlug(posts, row);
    match FindPostBySlug(posts, row.slug)
    case None =>
      assert row.slug !in SlugsOf(posts);
      assert r[|posts|] == row;
      forall i, j | 0 <= i < j < |r|
        ensures r[i].slug != r[j].slug
      {
        if j < |posts| {
          assert DistinctPosts(posts[i], posts[j]);
        } else {
          assert posts[i] in posts;
        }
      }
    case Some(k) =>
      assert r[k].slug == row.slug;
      forall i, j | 0 <= i < j < |r|
        ensures r[i].slug != r[j].slug
      {
        assert DistinctPosts(posts[i], posts[j]);
      }
  }

  // ---------------------------------------------------------------------
  // The posts_count recomputation
  // ---------------------------------------------------------------------

  /** `COUNT(*)` of the posts written by `authorId`. */
  function CountPosts(posts: seq<Post>, authorId: int): (r: nat)
    ensures r <= |posts|
  {
    if posts == [] then 0
    else (if posts[|posts| - 1].authorId == authorId then 1 else 0) + CountPosts(posts[..|posts| - 1], authorId)
  }

  lemma {:induction false} CountPostsPositive(posts: seq<Post>, authorId: int)
    ensures CountPosts(posts, authorId) > 0 <==> exists i :: 0 <= i < |posts| && posts[i].authorId == authorId
  {
    if posts != [] {
      var init := posts[..|posts| - 1];
      CountPostsPositive(init, authorId);
      if exists i :: 0 <= i < |init| && init[i].authorId == authorId {
        var i :| 0 <= i < |init| && init[i].authorId == authorId;
        assert posts[i] == init[i];
      }
      if exists i :: 0 <= i < |posts| && posts[i].authorId == authorId {
        var i :| 0 <= i < |posts| && posts[i].authorId == authorId;
        if i < |init| {
          assert init[i] == posts[i];
        }
      }
    }
  }

  /** One user row after the recount: only `posts_count` may change. */
  function Recount(u: User, posts: seq<Post>): (r: User)
    ensures r.(postsCount := u.postsCount) == u
  {
    var n := CountPosts(posts, u.id);
    if n > 0 then u.(postsCount := n) else u
  }

  /**
   * `UPDATE users SET posts_count = p.cnt FROM (per-author counts) p WHERE
   * u.id = p.author_id`: a user who wrote posts gets their count, and a
   * user with none is not joined, so keeps whatever count it had.
   */
  function RecountPosts(users: seq<User>, posts: seq<Post>): (r: seq<User>)
    ensures |r| == |users|
    ensures forall i :: 0 <= i < |r| ==> r[i].(postsCount := users[i].postsCount) == users[i]
    ensures forall i :: 0 <= i < |r| && CountPosts(posts, users[i].id) > 0 ==>
      r[i].postsCount == CountPosts(posts, users[i].id)
    ensures forall i :: 0 <= i < |r| && CountPosts(posts, users[i].id) == 0 ==>
      r[i].postsCount == users[i].postsCount
  {
    seq(|users|, i requires 0 <= i < |users| => Recount(users[i], posts))
  }

  /** Recounting touches no unique column, so the tables stay consistent. */
  lemma RecountPostsConsistent(users: seq<User>, posts: seq<Post>)
    requires Consistent(users, posts)
    ensures UserIds(RecountPosts(users, posts)) == UserIds(users)
    ensures Consistent(RecountPosts(users, posts), posts)
  {
    var r := RecountPosts(users, posts);
    forall x | x in UserIds(users) ensures x in UserIds(r) {
      var u :| u in users && u.id == x;
      var i :| 0 <= i < |users| && users[i] == u;
      assert r[i] in r;
    }
    forall x | x in UserIds(r) ensures x in UserIds(users) {
      var u :| u in r && u.id == x;
      var i :| 0 <= i < |r| && r[i] == u;
      assert users[i] in users;
    }
    forall i, j | 0 <= i < j < |r| ensures DistinctUsers(r[i], r[j]) {
      assert DistinctUsers(users[i], users[j]);
    }
    forall i | 0 <= i < |r| ensures UserFits(r[i]) {
      assert UserFits(users[i]);
    }
  }

  /** Each author with posts ends with `posts_count` equal to the number of their posts. */
  lemma RecountPostsCounts(users: seq<User>, posts: seq<Post>, i: nat)
    requires i < |users|
    requires exists k :: 0 <= k < |posts| && posts[k].authorId == users[i].id
    ensures RecountPosts(users, posts)[i].postsCount == |Filter(posts, (p: Post) => p.authorId == users[i].id)|
  {
    CountPostsPositive(posts, users[i].id);
    CountPostsFilter(posts, users[i].id);
  }

  lemma {:induction false} CountPostsFilter(posts: seq<Post>, authorId: int)
    ensures CountPosts(posts, authorId) == |Filter(posts, (p: Post) => p.authorId == authorId)|
  {
    var keep := (p: Post) => p.authorId == authorId;
    if posts != [] {
      var init, last := posts[..|posts| - 1], posts[|posts| - 1];
      assert posts == init + [last];
      CountPostsFilter(init, authorId);
      FilterAppend(init, [last], keep);
    }
  }

  /** Appending one post adds one to its author's count and nothing to anyone else's. */
  lemma CountPostsAppend(posts: seq<Post>, p: Post, authorId: int)
    ensures CountPosts(posts + [p], authorId) == CountPosts(posts, authorId) + (if p.authorId == authorId then 1 else 0)
  {
    assert (posts + [p])[..|posts|] == posts;
  }

  // ---------------------------------------------------------------------
  // createPost
  // ---------------------------------------------------------------------

  /** The fields of the submitted form; `None` is a field the form did not send. */
  datatype Form = Form(
    title: Option<string>,
    slug: Option<string>,
    category: Option<string>,
    content: Option<string>,
    authorUsername: Option<string>)

  /**
   * How the action ends: a redirect to the new post, the `{ ok: false, error }`
   * object returned to the form, or an exception thrown by the author lookup
   * or by the database.
   */
  datatype Outcome = Redirect(location: string) | Rejected(error: string) | Thrown(message: string)

  const RequiredMessage := "Title and content are required."
  const TooLongMessage := "value too long for type character varying(255)"

  /** `String(title || "").trim()`. */
  function FormTitle(form: Form): (r: string)
    ensures r == [] || (!IsSpace(r[0]) && !IsSpace(r[|r| - 1]))
  {
    Trim(OrDefault(form.title, ""))
  }

  /**
   * A trimmed title never ends in a space, so its `varchar(255)` stores it
   * unchanged when it fits and rejects it otherwise: the length check in
   * `CreatePost` is exactly the database's.
   */
  lemma FormTitleVarchar(form: Form)
    ensures Varchar(FormTitle(form), TitleMax) == if |FormTitle(form)| <= TitleMax then Some(FormTitle(form)) else None
  {
    var title := FormTitle(form);
    assert IsSpace(' ');
    VarcharUncut(title, TitleMax);
  }

  /** `String(content || "").trim()`. */
  function FormContent(form: Form): (r: string)
    ensures r == [] || (!IsSpace(r[0]) && !IsSpace(r[|r| - 1]))
  {
    Trim(OrDefault(form.content, ""))
  }

  /** `String(authorUsername || "guest").trim()`. */
  function FormAuthor(form: Form): (r: string)
    ensures r == [] || (!IsSpace(r[0]) && !IsSpace(r[|r| - 1]))
    ensures form.authorUsername.None? ==> r == "guest"
  {
    if form.authorUsername.None? then
      TrimGuest();
      Trim(DefaultAuthor)
    else
      Trim(OrDefault(form.authorUsername, DefaultAuthor))
  }

  const DefaultAuthor := "guest"

  lemma TrimGuest()
    ensures Trim(DefaultAuthor) == DefaultAuthor
  {
    var guest := DefaultAuthor;
    assert !IsSpace(guest[0]) && !IsSpace(guest[|guest| - 1]);
    TrimKeeps(guest);
  }

  /** `String(category || "uncategorized").slice(0, 100).trim()`. */
  function NormalCategory(category: Option<string>): (r: string)
    ensures |r| <= CategoryMax
    ensures r == [] || (!IsSpace(r[0]) && !IsSpace(r[|r| - 1]))
  {
    var cut := Prefix(OrDefault(category, DefaultCategory), CategoryMax);
    Trim(cut)
  }

  const DefaultCategory := "uncategorized"

  /** A missing or empty category field becomes "uncategorized". */
  lemma NormalCategoryDefault(category: Option<string>)
    requires category.None? || category.value == ""
    ensures NormalCategory(category) == DefaultCategory
  {
    var fallback := DefaultCategory;
    assert |fallback| == 13 && fallback[0] == 'u' && fallback[12] == 'd';
    NormalCategoryKeeps(fallback);
  }

  /** A category that already fits and has no surrounding white space is kept as sent. */
  lemma NormalCategoryKeeps(category: string)
    requires category != [] && |category| <= CategoryMax
    requires !IsSpace(category[0]) && !IsSpace(category[|category| - 1])
    ensures NormalCategory(Some(category)) == category
  {
  }

  /** A longer field is cut to its first 100 characters before trimming. */
  lemma NormalCategoryTruncates(category: string)
    requires |category| > CategoryMax
    requires !IsSpace(category[0]) && !IsSpace(category[CategoryMax - 1])
    ensures NormalCategory(Some(category)) == category[..CategoryMax]
  {
  }

  /** The slug the new post asks for: the slug field if it is non-empty, else the title, slugified. */
  function BaseSlug(rawSlug: Option<string>, title: string): (r: string)
    ensures IsSlug(r)
  {
    Slugify(OrDefault(rawSlug, title))
  }

  /** The row `createPost` inserts: its own columns plus every default of `posts`. */
  function NewPost(id: int, authorId: int, title: string, slug: string, content: string,
                   category: string, now: int): (r: Post)
    ensures PostFits(r) <==> |title| <= TitleMax && |slug| <= SlugMax && |category| <= CategoryMax
  {
    Post(id, authorId, title, slug, content, None, category, None, 3, None, DefaultStatus, Some(now), now, now)
  }

  method CreatePost(db: Database, form: Form, now: int) returns (outcome: Outcome)
    requires db.Valid()
    modifies db
    ensures db.Valid()
    // a blank title or content: the form gets an error and nothing changes
    ensures (FormTitle(form) == "" || FormContent(form) == "") <==> outcome == Rejected(RequiredMessage)
    ensures outcome.Rejected? ==> unchanged(db)
    // no user to attribute the post to: the lookup throws and nothing changes
    ensures old(db.users) == [] ==> outcome.Rejected? || outcome == Thrown(NoUsersMessage)
    ensures outcome == Thrown(NoUsersMessage) <==>
      FormTitle(form) != "" && FormContent(form) != "" && old(db.users) == []
    // the only other failure: a title or slug too long for its column
    ensures outcome.Thrown? ==> outcome.message == NoUsersMessage || outcome.message == TooLongMessage
    ensures outcome.Rejected? ==> outcome == Rejected(RequiredMessage)
    // a rejected insert has still drawn its serial value
    ensures outcome == Thrown(TooLongMessage) ==> db.nextPostId == old(db.nextPostId) + 1
    // a filled-in form with at least one user and values that fit always gets its post
    ensures outcome.Redirect? <==>
      && FormTitle(form) != "" && FormContent(form) != "" && old(db.users) != []
      && |FormTitle(form)| <= TitleMax
      && forall s :: FirstFree(old(db.posts), BaseSlug(form.slug, FormTitle(form)), s) ==> |s| <= SlugMax
    ensures outcome.Thrown? ==> db.users == old(db.users) && db.posts == old(db.posts)
    ensures outcome.Thrown? && outcome.message == NoUsersMessage ==> unchanged(db)
    // success: exactly one post appended, whose slug is the first free candidate
    ensures outcome.Redirect? ==>
      var title := FormTitle(form);
      var author := GetAuthorId(old(db.users), Some(FormAuthor(form)));
      && |db.posts| == |old(db.posts)| + 1
      && db.posts[..|old(db.posts)|] == old(db.posts)
      && var p := db.posts[|old(db.posts)|];
      && FirstFree(old(db.posts), BaseSlug(form.slug, title), p.slug)
      && p == NewPost(old(db.nextPostId), author.value, title, p.slug, FormContent(form), NormalCategory(form.category), now)
      && outcome.location == "/blog/" + p.slug
      && db.users == RecountPosts(old(db.users), db.posts)
      && db.nextPostId == old(db.nextPostId) + 1
  {
    var title := FormTitle(form);
    var category := NormalCategory(form.category);
    var content := FormContent(form);
    var authorUsername := FormAuthor(form);

    if title == "" || content == "" {
      return Rejected(RequiredMessage);
    }

    var authorId := GetAuthorId(db.users, Some(authorUsername));
    if authorId.Err? {
      return Thrown(authorId.error);
    }
    var base := BaseSlug(form.slug, title);
    var slug := EnsureUniqueSlug(db.posts, base);
    forall s | FirstFree(db.posts, base, s)
      ensures s == slug
    {
      FirstFreeUnique(db.posts, base, s, slug);
    }

    // the serial default is drawn before the row is checked, so a failed insert still uses it up
    var id := DrawPostId(db);
    if |title| > TitleMax || |slug| > SlugMax {
      return Thrown(TooLongMessage);
    }
    InsertPost(db, NewPost(id, authorId.value, title, slug, content, category, now));
    return Redirect("/blog/" + slug);
  }

  /** `nextval` on the `posts.id` serial. */
  method DrawPostId(db: Database) returns (id: int)
    requires db.Valid()
    modifies db
    ensures db.Valid()
    ensures id == old(db.nextPostId) && db.nextPostId == id + 1
    ensures db.users == old(db.users) && db.posts == old(db.posts)
    ensures forall i :: 0 <= i < |db.posts| ==> db.posts[i].id < id
  {
    id := db.nextPostId;
    db.nextPostId := db.nextPostId + 1;
  }

  /**
   * The insert followed by the `posts_count` update: with a fresh slug the
   * upsert appends the row, and every author's count is recomputed.
   */
  method InsertPost(db: Database, row: Post)
    requires db.Valid()
    requires PostFits(row) && row.authorId in UserIds(db.users) && row.slug !in SlugsOf(db.posts)
    requires forall i :: 0 <= i < |db.posts| ==> db.posts[i].id < row.id
    requires row.id < db.nextPostId
    modifies db
    ensures db.Valid()
    ensures db.posts == old(db.posts) + [row]
    ensures db.users == RecountPosts(old(db.users), db.posts)
    ensures db.nextPostId == old(db.nextPostId)
  {
    InsertKeepsConsistent(db.users, db.posts, row);
    db.posts := UpsertBySlug(db.posts, row);
    RecountPostsConsistent(db.users, db.posts);
    db.users := RecountPosts(db.users, db.posts);
  }

  /** Appending a fitting row with a fresh id, a fresh slug and an existing author keeps the tables consistent. */
  lemma InsertKeepsConsistent(users: seq<User>, posts: seq<Post>, row: Post)
    requires Consistent(users, posts)
    requires PostFits(row) && row.authorId in UserIds(users)
    requires row.slug !in SlugsOf(posts)
    requires forall i :: 0 <= i < |posts| ==> posts[i].id < row.id
    ensures Consistent(users, posts + [row])
  {
    var r := posts + [row];
    forall i, j | 0 <= i < j < |r| ensures DistinctPosts(r[i], r[j]) {
      if j < |posts| {
        assert DistinctPosts(posts[i], posts[j]);
      } else {
        assert posts[i] in posts;
      }
    }
  }
}
