/** The `Category` model: its `posts` and `published_posts` relations and the
    `active` query scope. */
module CategoryModel {
  import opened Schema
  import PostModel

  /** `$category->posts`: the posts joined to category `c` through the junction table. */
  function PostsOf(posts: map<Id, Post>, links: set<Link>, c: Id): set<Id>
  {
    set l | l in links && l.0 == c && l.1 in posts :: l.1
  }

  /** `$category->published_posts`: the `posts` relation narrowed by the `published` scope. */
  function PublishedPostsOf(posts: map<Id, Post>, links: set<Link>, c: Id, now: int): set<Id>
  {
    PostsOf(PostModel.Published(posts, now), links, c)
  }

  /** The rows the `active` scope keeps. */
  function Active(categories: map<Id, Category>): map<Id, Category>
  {
    map id | id in categories && categories[id].isActive :: categories[id]
  }

  /** The published posts of a category are its posts that are published. */
  lemma PublishedPostsExactly(posts: map<Id, Post>, links: set<Link>, c: Id, now: int, p: Id)
    ensures p in PublishedPostsOf(posts, links, c, now) <==>
            p in PostsOf(posts, links, c) && posts[p].publishedAt <= now
  {
  }

  lemma SubsetCardinality<T>(a: set<T>, b: set<T>)
    requires a <= b
    ensures |a| <= |b|
  {
    assert b == a + (b - a);
  }

  /** `published_posts_count` never exceeds the number of the category's posts. */
  lemma PublishedPostsBounded(posts: map<Id, Post>, links: set<Link>, c: Id, now: int)
    ensures PublishedPostsOf(posts, links, c, now) <= PostsOf(posts, links, c)
    ensures |PublishedPostsOf(posts, links, c, now)| <= |PostsOf(posts, links, c)|
  {
    forall p | p in PublishedPostsOf(posts, links, c, now) ensures p in PostsOf(posts, links, c) {
      PublishedPostsExactly(posts, links, c, now, p);
    }
    SubsetCardinality(PublishedPostsOf(posts, links, c, now), PostsOf(posts, links, c));
  }

  /** Both sides of the relation read the same junction rows. */
  lemma RelationSymmetric(categories: map<Id, Category>, posts: map<Id, Post>, links: set<Link>, c: Id, p: Id)
    requires c in categories && p in posts
    ensures p in PostsOf(posts, links, c) <==> c in PostModel.CategoriesOf(categories, links, p)
  {
  }
}
