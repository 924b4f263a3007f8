/**
 * The client-side store behind the "new post" form. It holds what the
 * author has typed so far; the slug follows the title (slugified) until the
 * author edits the slug field by hand.
 */
module FormStore {
  import opened Slugs

  /** A snapshot of the store's fields. */
  datatype FormState = FormState(
    title: string,
    slug: string,
    touchedSlug: bool,
    category: string,
    content: string,
    authorUsername: string)

  /** The state a fresh store starts in and `reset` returns to. */
  const Initial := FormState("", "", false, "notes", "", "guest")

  /** One call of a store action. */
  datatype Event =
    | TitleSet(v: string)
    | SlugSet(v: string)
    | SlugTouched
    | CategorySet(v: string)
    | ContentSet(v: string)
    | AuthorUsernameSet(v: string)
    | FormReset

  /**
   * The state after one action. The slug flag is set by `touchSlug` alone
   * and cleared by `reset` alone.
   */
  function Apply(s: FormState, e: Event): (r: FormState)
    ensures r.touchedSlug <==> e.SlugTouched? || (s.touchedSlug && !e.FormReset?)
    ensures e.FormReset? ==> r == Initial
  {
    match e
    case TitleSet(v) => s.(title := v, slug := if s.touchedSlug then s.slug else Slugify(v))
    case SlugSet(v) => s.(slug := v)
    case SlugTouched => s.(touchedSlug := true)
    case CategorySet(v) => s.(category := v)
    case ContentSet(v) => s.(content := v)
    case AuthorUsernameSet(v) => s.(authorUsername := v)
    case FormReset => Initial
  }

  /** The state after a sequence of actions, in order. */
  function Run(s: FormState, events: seq<Event>): FormState
    decreases events
  {
    if events == [] then s else Run(Apply(s, events[0]), events[1..])
  }

  /** Without `touchSlug`, a store whose flag is clear never sets it. */
  lemma {:induction false} UntouchedWithoutTouch(s: FormState, events: seq<Event>)
    requires !s.touchedSlug
    requires forall i :: 0 <= i < |events| ==> !events[i].SlugTouched?
    ensures !Run(s, events).touchedSlug
    decreases events
  {
    if events != [] {
      UntouchedWithoutTouch(Apply(s, events[0]), events[1..]);
    }
  }

  /** Without `reset`, a store whose flag is set keeps it set. */
  lemma {:induction false} TouchedWithoutReset(s: FormState, events: seq<Event>)
    requires s.touchedSlug
    requires forall i :: 0 <= i < |events| ==> !events[i].FormReset?
    ensures Run(s, events).touchedSlug
    decreases events
  {
    if events != [] {
      TouchedWithoutReset(Apply(s, events[0]), events[1..]);
    }
  }

  /** Once touched, the slug changes only through `setSlug` or `reset`, whatever the title does. */
  lemma {:induction false} TouchedSlugKept(s: FormState, events: seq<Event>)
    requires s.touchedSlug
    requires forall i :: 0 <= i < |events| ==> !events[i].SlugSet? && !events[i].FormReset?
    ensures Run(s, events).slug == s.slug
    decreases events
  {
    if events != [] {
      TouchedSlugKept(Apply(s, events[0]), events[1..]);
    }
  }

  /**
   * Until the author touches or edits the slug, it is always the slugified
   * title; the initial state is such a state.
   */
  lemma {:induction false} SlugFollowsTitle(s: FormState, events: seq<Event>)
    requires !s.touchedSlug && s.slug == Slugify(s.title)
    requires forall i :: 0 <= i < |events| ==> !events[i].SlugTouched? && !events[i].SlugSet?
    ensures Run(s, events).slug == Slugify(Run(s, events).title)
    decreases events
  {
    if events != [] {
      var e := events[0];
      var next := Apply(s, e);
      if e.FormReset? {
        InitialSlugFollowsTitle();
      }
      assert next.slug == Slugify(next.title);
      SlugFollowsTitle(next, events[1..]);
    }
  }

  lemma InitialSlugFollowsTitle()
    ensures Initial.slug == Slugify(Initial.title)
  {
    assert Slugify("") == "" by {
      SlugifyFixedPoints("");
    }
  }

  /** `reset` brings back the initial state from any state. */
  lemma ResetRestores(s: FormState, events: seq<Event>)
    ensures Run(s, events + [FormReset]) == Initial
  {
    RunAppend(s, events, [FormReset]);
  }

  lemma {:induction false} RunAppend(s: FormState, a: seq<Event>, b: seq<Event>)
    ensures Run(s, a + b) == Run(Run(s, a), b)
    decreases a
  {
    if a != [] {
      assert (a + b)[0] == a[0];
      assert (a + b)[1..] == a[1..] + b;
      RunAppend(Apply(s, a[0]), a[1..], b);
    } else {
      assert a + b == b;
    }
  }

  /** The store itself: the six fields its actions update in place. */
  class PostFormStore {
    var title: string
    var slug: string
    var touchedSlug: bool
    var category: string
    var content: string
    var authorUsername: string

    function Snapshot(): FormState
      reads this
    {
      FormState(title, slug, touchedSlug, category, content, authorUsername)
    }

    constructor ()
      ensures Snapshot() == Initial
    {
      title, slug, touchedSlug := "", "", false;
      category, content, authorUsername := "notes", "", "guest";
    }

    /** Sets the title; the slug follows it (slugified) while untouched. */
    method SetTitle(v: string)
      modifies this
      ensures title == v
      ensures slug == if old(touchedSlug) then old(slug) else Slugify(v)
      ensures touchedSlug == old(touchedSlug) && category == old(category)
      ensures content == old(content) && authorUsername == old(authorUsername)
      ensures Snapshot() == Apply(old(Snapshot()), TitleSet(v))
    {
      if !touchedSlug {
        slug := Slugify(v);
      }
      title := v;
    }

    /** Sets the slug without marking it touched. */
    method SetSlug(v: string)
      modifies this
      ensures slug == v
      ensures title == old(title) && touchedSlug == old(touchedSlug) && category == old(category)
      ensures content == old(content) && authorUsername == old(authorUsername)
      ensures Snapshot() == Apply(old(Snapshot()), SlugSet(v))
    {
      slug := v;
    }

    method TouchSlug()
      modifies this
      ensures touchedSlug
      ensures title == old(title) && slug == old(slug) && category == old(category)
      ensures content == old(content) && authorUsername == old(authorUsername)
      ensures Snapshot() == Apply(old(Snapshot()), SlugTouched)
    {
      touchedSlug := true;
    }

    method SetCategory(v: string)
      modifies this
      ensures category == v
      ensures title == old(title) && slug == old(slug) && touchedSlug == old(touchedSlug)
      ensures content == old(content) && authorUsername == old(authorUsername)
      ensures Snapshot() == Apply(old(Snapshot()), CategorySet(v))
    {
      category := v;
    }

    method SetContent(v: string)
      modifies this
      ensures content == v
      ensures title == old(title) && slug == old(slug) && touchedSlug == old(touchedSlug)
      ensures category == old(category) && authorUsername == old(authorUsername)
      ensures Snapshot() == Apply(old(Snapshot()), ContentSet(v))
    {
      content := v;
    }

    method SetAuthorUsername(v: string)
      modifies this
      ensures authorUsername == v
      ensures title == old(title) && slug == old(slug) && touchedSlug == old(touchedSlug)
      ensures category == old(category) && content == old(content)
      ensures Snapshot() == Apply(old(Snapshot()), AuthorUsernameSet(v))
    {
      authorUsername := v;
    }

    method Reset()
      modifies this
      ensures Snapshot() == Initial
      ensures Snapshot() == Apply(old(Snapshot()), FormReset)
    {
      title, slug, touchedSlug := "", "", false;
      category, content, authorUsername := "notes", "", "guest";
    }
  }
}
