/** The blog's tables held in memory, and the outcome of a controller action. */
module Database {
  import opened Schema
  import Validation

  /** What an action answers: its result, a not-found (HTTP 404) or a failed
      validation (HTTP 422) naming the fields at fault. */
  datatype Response<+T> = Ok(value: T) | NotFound | Unprocessable(errors: set<Validation.Field>)

  class Tables {
    var categories: map<Id, Category>
    var posts: map<Id, Post>
    var links: set<Link>
    /** The next values of the two auto-increment counters. */
    var nextCategoryId: Id
    var nextPostId: Id

    /** Category names are unique and non-blank, every row's id was handed
        out by its counter, and every junction row joins an existing category
        to an existing post. */
    ghost predicate Valid()
      reads this
    {
      && UniqueNames(categories)
      && 0 < nextCategoryId && 0 < nextPostId
      && (forall id :: id in categories ==> 0 < id < nextCategoryId && !Validation.TrimsToEmpty(categories[id].name))
      && (forall id :: id in posts ==> 0 < id < nextPostId)
      && (forall l :: l in links ==> l.0 in categories && l.1 in posts)
    }

    constructor ()
      ensures Valid()
      ensures categories == map[] && posts == map[] && links == {}
      ensures nextCategoryId == 1 && nextPostId == 1
    {
      categories, posts, links := map[], map[], {};
      nextCategoryId, nextPostId := 1, 1;
    }
  }
}
