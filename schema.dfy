/** The three tables the blog keeps: `categories`, `posts` and the `category_post`
    junction table. Timestamps (`created_at`, `updated_at`) are not modelled. */
module Schema {

  /** Auto-incremented surrogate key of a row. */
  type Id = int

  /** A row of `categories`. */
  datatype Category = Category(name: string, isActive: bool)

  /** A row of `posts`; `published_at` is a timestamp on an integer clock. */
  datatype Post = Post(name: string, content: string, publishedAt: int)

  /** A row of the junction table: (category_id, post_id). */
  type Link = (Id, Id)

  /** The unique index on `categories.name`: no two rows share a name. */
  predicate UniqueNames(categories: map<Id, Category>)
  {
    forall a, b :: a in categories && b in categories && a != b ==>
      categories[a].name != categories[b].name
  }
}
