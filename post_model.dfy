/** The `Post` model: the `published` query scope, the appended `word_count`
    attribute and the `categories` many-to-many relation. */
module PostModel {
  import opened Schema
  import WordCounter
  import opened Validation

  /** `scopePublished`: `published_at <= now`. */
  predicate IsPublished(p: Post, now: int)
  {
    p.publishedAt <= now
  }

  /** The rows the `published` scope keeps. */
  function Published(posts: map<Id, Post>, now: int): map<Id, Post>
  {
    map id | id in posts && IsPublished(posts[id], now) :: posts[id]
  }

  /** Helper: membership in the published scope, unfolded. */
  lemma PublishedExactly(posts: map<Id, Post>, now: int, id: Id)
    ensures id in Published(posts, now) <==> id in posts && posts[id].publishedAt <= now
    ensures id in Published(posts, now) ==> Published(posts, now)[id] == posts[id]
  {
  }

  /** A post whose publication instant is `now` itself is already published. */
  lemma PublishedAtBoundary(posts: map<Id, Post>, now: int, id: Id)
    requires id in posts && posts[id].publishedAt == now
    ensures id in Published(posts, now)
    ensures !IsPublished(posts[id], now - 1)
  {
  }

  /** With the clock moving forward, published posts stay published. */
  lemma PublishedGrowsWithTime(posts: map<Id, Post>, now: int, later: int)
    requires now <= later
    ensures Published(posts, now).Keys <= Published(posts, later).Keys
  {
    forall id | id in Published(posts, now) ensures id in Published(posts, later) {
      PublishedExactly(posts, now, id);
      PublishedExactly(posts, later, id);
    }
  }

  /** PHP truthiness of a string: only "" and "0" are false. */
  predicate Falsy(s: string)
  {
    s == "" || s == "0"
  }

  /** The `word_count` getter on a model instance: `content` is `None` when the
      instance was loaded without its `content` column, which PHP reads as null. */
  function WordCountOf(content: Option<string>): nat
  {
    match content
    case None => 0
    case Some(c) => if Falsy(c) then 0 else WordCounter.WordCount(c)
  }

  /** The `word_count` attribute of a fully loaded post, recomputed from its
      current content on every read and never stored. */
  function WordCountAttribute(p: Post): nat
  {
    WordCountOf(Some(p.content))
  }

  /** `word_count` is zero exactly when the content holds no word, or is the
      string "0" (which PHP treats as false); in particular empty content gives 0. */
  lemma WordCountAttributeZero(p: Post)
    ensures p.content == "" ==> WordCountAttribute(p) == 0
    ensures WordCountAttribute(p) == 0 <==> p.content == "0" || WordCounter.Blank(p.content)
  {
    WordCounter.WordCountZeroIffBlank(p.content);
  }

  /** A post loaded without its content reports no words, although the same
      post loaded in full reports a positive count whenever its content holds
      a word (and is not the string "0"). */
  lemma UnloadedContentUndercounts(p: Post)
    requires !WordCounter.Blank(p.content) && p.content != "0"
    ensures WordCountOf(None) == 0
    ensures WordCountAttribute(p) > 0
    ensures WordCountOf(None) != WordCountAttribute(p)
  {
    WordCountAttributeZero(p);
  }

  /** `$post->categories`: the categories joined to post `p` through the junction table. */
  function CategoriesOf(categories: map<Id, Category>, links: set<Link>, p: Id): set<Id>
  {
    set l | l in links && l.1 == p && l.0 in categories :: l.0
  }

  /** `$post->categories()->detach()`: every junction row of post `p` removed. */
  function Detach(links: set<Link>, p: Id): set<Link>
  {
    set l | l in links && l.1 != p
  }

  /** `$post->categories()->attach($ids)`: one junction row per id added. */
  function Attach(links: set<Link>, p: Id, ids: set<Id>): set<Link>
  {
    links + set c | c in ids :: (c, p)
  }

  /** Detaching then attaching replaces the post's category set by exactly the
      given ids: nothing of the old set survives. */
  lemma ReplaceCategoriesExact(categories: map<Id, Category>, links: set<Link>, p: Id, ids: set<Id>)
    requires ids <= categories.Keys
    ensures CategoriesOf(categories, Attach(Detach(links, p), p, ids), p) == ids
  {
    var after := Attach(Detach(links, p), p, ids);
    forall c | c in ids ensures c in CategoriesOf(categories, after, p) {
      assert (c, p) in after;
    }
  }

  /** Detaching and attaching for post `p` leaves every other post's rows as they were. */
  lemma ReplaceCategoriesLocal(links: set<Link>, p: Id, ids: set<Id>, l: Link)
    requires l.1 != p
    ensures l in Attach(Detach(links, p), p, ids) <==> l in links
  {
  }
}
