/**
 * The two tables of the blog, `users` and `posts`: their rows, the
 * constraints the database enforces on them (primary keys, unique columns,
 * the foreign key from a post to its author, column lengths) and the
 * defaults a new row receives.
 */
module Schema {
  import opened Wrappers
  import opened Text
  import opened SqlOps

  /** The `post_status` enum. A new post is `Published` unless told otherwise. */
  datatype Status = Draft | Published

  const DefaultStatus: Status := Published

  /** A row of `users`; timestamps are integers. */
  datatype User = User(
    id: int,
    username: string,
    displayName: Option<string>,
    email: Option<string>,
    bio: Option<string>,
    role: string,
    postsCount: int,
    isActive: bool,
    createdAt: int,
    updatedAt: int)

  /** A row of `posts`; `publishedAt` is `None` for a draft. */
  datatype Post = Post(
    id: int,
    authorId: int,
    title: string,
    slug: string,
    content: string,
    excerpt: Option<string>,
    category: string,
    tags: Option<seq<string>>,
    readingMinutes: int,
    coverImageUrl: Option<string>,
    status: Status,
    publishedAt: Option<int>,
    createdAt: int,
    updatedAt: int)

  // Column widths (varchar lengths).
  const UsernameMax := 50
  const DisplayNameMax := 100
  const EmailMax := 255
  const RoleMax := 32
  const TitleMax := 255
  const SlugMax := 255
  const ExcerptMax := 512
  const CategoryMax := 100
  const CoverImageUrlMax := 1024

  predicate FitsIn(o: Option<string>, n: nat) {
    o.Some? ==> |o.value| <= n
  }

  predicate UserFits(u: User) {
    && |u.username| <= UsernameMax
    && FitsIn(u.displayName, DisplayNameMax)
    && FitsIn(u.email, EmailMax)
    && |u.role| <= RoleMax
  }

  predicate PostFits(p: Post) {
    && |p.title| <= TitleMax
    && |p.slug| <= SlugMax
    && FitsIn(p.excerpt, ExcerptMax)
    && |p.category| <= CategoryMax
    && FitsIn(p.coverImageUrl, CoverImageUrlMax)
  }

  function UserIds(users: seq<User>): set<int> {
    set u | u in users :: u.id
  }

  /** Two `users` rows differ in each unique column: `id`, `username` and a non-null `email`. */
  predicate DistinctUsers(a: User, b: User) {
    && a.id != b.id
    && a.username != b.username
    && (a.email.Some? && b.email.Some? ==> a.email != b.email)
  }

  /** Two `posts` rows differ in each unique column: `id` and `slug`. */
  predicate DistinctPosts(a: Post, b: Post) {
    a.id != b.id && a.slug != b.slug
  }

  ghost predicate UsersConsistent(users: seq<User>) {
    && (forall i :: 0 <= i < |users| ==> UserFits(users[i]))
    && Pairwise(users, DistinctUsers)
  }

  /** Every post fits its columns, has an existing author, and no two posts clash. */
  ghost predicate PostsConsistent(users: seq<User>, posts: seq<Post>) {
    && (forall i :: 0 <= i < |posts| ==> PostFits(posts[i]) && posts[i].authorId in UserIds(users))
    && Pairwise(posts, DistinctPosts)
  }

  ghost predicate Consistent(users: seq<User>, posts: seq<Post>) {
    UsersConsistent(users) && PostsConsistent(users, posts)
  }

  /** The first row of `posts` whose slug is `slug` (with unique slugs, the only one). */
  function FindPostBySlug(posts: seq<Post>, slug: string): (r: Option<nat>)
    ensures r.None? <==> forall i :: 0 <= i < |posts| ==> posts[i].slug != slug
    ensures r.Some? ==> r.value < |posts| && posts[r.value].slug == slug
    ensures r.Some? ==> forall i :: 0 <= i < r.value ==> posts[i].slug != slug
  {
    if posts == [] then None
    else if posts[0].slug == slug then Some(0)
    else match FindPostBySlug(posts[1..], slug)
      case None => None
      case Some(i) => Some(i + 1)
  }

  /** The author a post row joins to (`LEFT JOIN users ON posts.author_id = users.id`). */
  function FindUserById(users: seq<User>, id: int): (r: Option<User>)
    ensures r.None? <==> id !in UserIds(users)
    ensures r.Some? ==> r.value in users && r.value.id == id
  {
    if users == [] then None
    else if users[0].id == id then Some(users[0])
    else FindUserById(users[1..], id)
  }

  /**
   * Storing `s` in a `varchar(n)` column: a value that fits is stored as
   * it is; a longer value whose excess characters are all spaces is cut to
   * `n` characters; any other longer value is an error.
   */
  function Varchar(s: string, n: nat): (r: Option<string>)
    ensures r.Some? <==> |s| <= n || forall i :: n <= i < |s| ==> s[i] == ' '
    ensures r.Some? ==> |r.value| <= n && r.value <= s
    ensures r.Some? ==> forall i :: |r.value| <= i < |s| ==> s[i] == ' '
  {
    if |s| <= n then Some(s)
    else if forall i :: n <= i < |s| ==> s[i] == ' ' then Some(s[..n])
    else None
  }

  /** A value that ends in anything but a space is stored unchanged when it fits, and rejected otherwise. */
  lemma VarcharUncut(s: string, n: nat)
    requires s == [] || s[|s| - 1] != ' '
    ensures Varchar(s, n) == if |s| <= n then Some(s) else None
  {
    if |s| > n {
      assert !(s[|s| - 1] == ' ');
    }
  }

  /** A fitting value padded with any number of spaces is stored, and keeps all of its own characters. */
  lemma VarcharPadded(s: string, k: nat, n: nat)
    requires |s| <= n
    ensures var padded := s + seq(k, _ => ' ');
      Varchar(padded, n).Some? && Varchar(padded, n).value[..|s|] == s
  {
    var padded := s + seq(k, _ => ' ');
    forall i | n <= i < |padded|
      ensures padded[i] == ' '
    {
      assert padded[i] == seq(k, _ => ' ')[i - |s|];
    }
  }

  /**
   * `INSERT INTO users (username)`: the new row takes every default
   * (no display name, e-mail or bio, role "user", 0 posts, active). The
   * username is first stored into its `varchar(50)`, which fails on a
   * username too long for it; then the insert fails on a taken id or
   * username.
   */
  function InsertUser(users: seq<User>, id: int, username: string, now: int): (r: Result<seq<User>>)
    ensures r.Ok? <==> Varchar(username, UsernameMax).Some? && id !in UserIds(users) &&
                       forall i :: 0 <= i < |users| ==> users[i].username != Varchar(username, UsernameMax).value
    ensures r.Ok? ==> |r.value| == |users| + 1 && r.value[..|users|] == users
    ensures r.Ok? ==> var u := r.value[|users|];
      && u.id == id && u.username == Varchar(username, UsernameMax).value
      && u.postsCount == 0 && u.isActive && u.role == "user"
      && u.displayName.None? && u.email.None? && u.bio.None?
      && u.createdAt == now && u.updatedAt == now
    ensures r.Ok? && UsersConsistent(users) ==> UsersConsistent(r.value)
  {
    match Varchar(username, UsernameMax)
    case None => Err("value too long for type character varying(50)")
    case Some(name) =>
      if id in UserIds(users) then Err("duplicate key value violates unique constraint \"users_pkey\"")
      else if exists i :: 0 <= i < |users| && users[i].username == name then
        Err("duplicate key value violates unique constraint \"users_username_uq\"")
      else
        var u := User(id, name, None, None, None, "user", 0, true, now, now);
        var r := users + [u];
        assert forall i :: 0 <= i < |users| ==> users[i] in users;
        Ok(r)
  }

  /**
   * `DELETE FROM users WHERE id = id`: `ON DELETE CASCADE` removes the
   * user's posts with it.
   */
  function DeleteUser(users: seq<User>, posts: seq<Post>, id: int): (r: (seq<User>, seq<Post>))
    ensures id !in UserIds(r.0)
    ensures forall u :: u in r.0 <==> u in users && u.id != id
    ensures forall p :: p in r.1 <==> p in posts && p.authorId != id
    ensures Consistent(users, posts) ==> Consistent(r.0, r.1)
  {
    var keepUser := (u: User) => u.id != id;
    var keepPost := (p: Post) => p.authorId != id;
    var users', posts' := Filter(users, keepUser), Filter(posts, keepPost);
    FilterMembers(users, keepUser);
    FilterMembers(posts, keepPost);
    DeleteUserConsistent(users, posts, id, keepUser, keepPost);
    (users', posts')
  }

  lemma DeleteUserConsistent(users: seq<User>, posts: seq<Post>, id: int, keepUser: User -> bool, keepPost: Post -> bool)
    requires forall u :: keepUser(u) == (u.id != id)
    requires forall p :: keepPost(p) == (p.authorId != id)
    ensures Consistent(users, posts) ==> Consistent(Filter(users, keepUser), Filter(posts, keepPost))
  {
    if Consistent(users, posts) {
      var users', posts' := Filter(users, keepUser), Filter(posts, keepPost);
      FilterMembers(users, keepUser);
      FilterMembers(posts, keepPost);
      FilterKeepsPairwise(users, keepUser, DistinctUsers);
      FilterKeepsPairwise(posts, keepPost, DistinctPosts);
      forall i | 0 <= i < |posts'|
        ensures PostFits(posts'[i]) && posts'[i].authorId in UserIds(users')
      {
        var p := posts'[i];
        assert p in posts;
        var u :| u in users && u.id == p.authorId;
        assert u in users';
      }
      forall i | 0 <= i < |users'|
        ensures UserFits(users'[i])
      {
        assert users'[i] in users;
      }
    }
  }

  /** The `users` / `posts` pair the blog reads and writes. */
  class Database {
    var users: seq<User>
    var posts: seq<Post>
    /** The next value of the `posts.id` serial sequence. */
    var nextPostId: int

    ghost predicate Valid()
      reads this
    {
      && Consistent(users, posts)
      && forall i :: 0 <= i < |posts| ==> posts[i].id < nextPostId
    }

    constructor (users: seq<User>)
      requires UsersConsistent(users)
      ensures Valid() && this.users == users && posts == []
    {
      this.users := users;
      posts := [];
      nextPostId := 1;
    }
  }
}
