/**
 * The two server-side helpers the pages call directly: the list of
 * categories for the category filter and the lookup of one post by slug.
 */
module Queries {
  import opened Wrappers
  import opened Text
  import opened SqlOps
  import opened Schema
  import Router

  /** The `category` column, in table order. */
  function CategoryColumn(posts: seq<Post>): (r: seq<string>)
    ensures |r| == |posts| && forall i :: 0 <= i < |r| ==> r[i] == posts[i].category
  {
    seq(|posts|, i requires 0 <= i < |posts| => posts[i].category)
  }

  function Ascending(): (string, string) -> bool {
    (a: string, b: string) => StrLe(a, b)
  }

  /** `c && c.trim().length > 0`. */
  function NotBlank(): string -> bool {
    (c: string) => c != "" && |Trim(c)| > 0
  }

  lemma AscendingTotal()
    ensures TotalPreorder(Ascending())
  {
    forall a: string, b: string
      ensures StrLe(a, b) || StrLe(b, a)
    {
      StrLeTotal(a, b);
    }
    forall a: string, b: string, c: string | StrLe(a, b) && StrLe(b, c)
      ensures StrLe(a, c)
    {
      StrLeTransitive(a, b, c);
    }
  }

  /**
   * `fetchDistinctCategories`: the category column in ascending order,
   * with blank entries dropped. Every entry has a non-blank character.
   */
  function FetchDistinctCategories(posts: seq<Post>): (r: seq<string>)
    ensures forall i :: 0 <= i < |r| ==> !IsBlank(r[i])
  {
    Filter(SortBy(CategoryColumn(posts), Ascending()), NotBlank())
  }

  /** The list is sorted. */
  lemma CategoriesSorted(posts: seq<Post>)
    ensures var r := FetchDistinctCategories(posts);
      forall i, j :: 0 <= i < j < |r| ==> StrLe(r[i], r[j])
  {
    AscendingTotal();
    SortBySorted(CategoryColumn(posts), Ascending());
    FilterKeepsPairwise(SortBy(CategoryColumn(posts), Ascending()), NotBlank(), Ascending());
    var r := FetchDistinctCategories(posts);
    forall i, j | 0 <= i < j < |r|
      ensures StrLe(r[i], r[j])
    {
      assert Ascending()(r[i], r[j]);
    }
  }

  /**
   * Nothing is deduplicated: a non-blank category appears once per post
   * that has it, and a blank one not at all.
   */
  lemma CategoriesCount(posts: seq<Post>, c: string)
    ensures multiset(FetchDistinctCategories(posts))[c] == if IsBlank(c) then 0 else multiset(CategoryColumn(posts))[c]
  {
    assert NotBlank()(c) <==> !IsBlank(c);
    FilterCount(SortBy(CategoryColumn(posts), Ascending()), NotBlank());
  }

  /** Two posts in the same category give that category twice. */
  lemma CategoriesKeepDuplicates(p: Post, q: Post)
    requires p.category == q.category && !IsBlank(p.category)
    ensures FetchDistinctCategories([p, q]) == [p.category, p.category]
  {
    var c := p.category;
    assert CategoryColumn([p, q]) == [c, c];
    StrLeTotal(c, c);
    assert SortBy([c, c], Ascending()) == [c, c] by {
      assert SortBy([c], Ascending()) == [c];
      assert [c, c][1..] == [c];
    }
    assert NotBlank()(c);
    assert Filter([c, c], NotBlank()) == [c] + Filter([c], NotBlank()) by {
      assert [c, c][1..] == [c];
    }
  }

  /** The row `getPost` returns: post columns, the author's username, nullable times. */
  datatype PostRow = PostRow(
    id: int,
    title: string,
    slug: string,
    content: string,
    category: string,
    published: Option<int>,
    createdAt: Option<int>,
    authorId: int,
    username: Option<string>)

  /**
   * `getPost`: the first post with the slug, whatever its status, joined to
   * its author; null when no post has the slug. A NULL publication time
   * stays null.
   */
  function GetPost(posts: seq<Post>, users: seq<User>, slug: string): (r: Option<PostRow>)
    ensures r.None? <==> forall i :: 0 <= i < |posts| ==> posts[i].slug != slug
    ensures r.Some? ==>
      var p := posts[FindPostBySlug(posts, slug).value];
      && r.value.id == p.id && r.value.slug == slug && r.value.title == p.title
      && r.value.content == p.content && r.value.category == p.category && r.value.authorId == p.authorId
      && r.value.published == p.publishedAt && r.value.createdAt == Some(p.createdAt)
      && r.value.username == Router.AuthorUsernameOf(users, p)
  {
    match FindPostBySlug(posts, slug)
    case None => None
    case Some(i) =>
      var p := posts[i];
      var author := FindUserById(users, p.authorId);
      Some(PostRow(p.id, p.title, p.slug, p.content, p.category, p.publishedAt, Some(p.createdAt), p.authorId,
                   if author.Some? then Some(author.value.username) else None))
  }

  /**
   * Unlike the public `getPostBySlug`, `getPost` has no status filter: a
   * draft is found by one and not by the other.
   */
  lemma DraftOnlyThroughGetPost(posts: seq<Post>, users: seq<User>, k: nat)
    requires Pairwise(posts, DistinctPosts)
    requires k < |posts| && posts[k].status == Draft && posts[k].slug != ""
    ensures GetPost(posts, users, posts[k].slug).Some?
    ensures GetPost(posts, users, posts[k].slug).value.id == posts[k].id
    ensures Router.GetPostBySlug(posts, users, posts[k].slug) == Ok(None)
  {
    var slug := posts[k].slug;
    var i := FindPostBySlug(posts, slug).value;
    assert i < k ==> DistinctPosts(posts[i], posts[k]);
    assert forall j :: 0 <= j < |posts| && j != k ==> posts[j].slug != slug by {
      forall j | 0 <= j < |posts| && j != k
        ensures posts[j].slug != slug
      {
        assert j < k ==> DistinctPosts(posts[j], posts[k]);
        assert k < j ==> DistinctPosts(posts[k], posts[j]);
      }
    }
  }
}
