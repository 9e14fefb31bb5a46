/** `CategoriesController`: list, create, show, update and delete categories.
    Route-model binding becomes an explicit lookup that answers `NotFound`. */
module CategoriesController {
  import opened Schema
  import opened Validation
  import opened Database
  import CategoryModel
  import PostModel
  import WordCounter
  import CategoryRequest

  /** A listed category with its `published_posts_count`. */
  datatype Listing = Listing(category: Category, publishedPostsCount: nat)

  /** `index`: the active categories, each with the number of its published posts. */
  method Index(db: Tables, now: int) returns (r: map<Id, Listing>)
    ensures forall id :: id in r <==> id in db.categories && db.categories[id].isActive
    ensures forall id :: id in r ==>
              && r[id].category == db.categories[id]
              && r[id].publishedPostsCount == |CategoryModel.PublishedPostsOf(db.posts, db.links, id, now)|
              && r[id].publishedPostsCount <= |CategoryModel.PostsOf(db.posts, db.links, id)|
  {
    var active := CategoryModel.Active(db.categories);
    r := map id | id in active :: Listing(active[id], |CategoryModel.PublishedPostsOf(db.posts, db.links, id, now)|);
    forall id | id in r
      ensures r[id].publishedPostsCount <= |CategoryModel.PostsOf(db.posts, db.links, id)|
    {
      CategoryModel.PublishedPostsBounded(db.posts, db.links, id, now);
    }
  }

  /** `store`: validate, then insert a row with the next id. */
  method Store(db: Tables, req: CategoryRequest.UpsertCategory) returns (r: Response<Id>)
    requires db.Valid()
    modifies db
    ensures db.Valid()
    ensures var v := CategoryRequest.Validate(req, old(db.categories), None);
      if v.Fails? then r == Unprocessable(v.errors) && unchanged(db)
      else
        && r == Ok(old(db.nextCategoryId))
        && r.value !in old(db.categories)
        && db.categories == old(db.categories)[r.value := Category(v.value.name, v.value.isActive)]
        && db.nextCategoryId == old(db.nextCategoryId) + 1
        && db.posts == old(db.posts) && db.links == old(db.links) && db.nextPostId == old(db.nextPostId)
  {
    var v := CategoryRequest.Validate(req, db.categories, None);
    if v.Fails? {
      return Unprocessable(v.errors);
    }
    var id := db.nextCategoryId;
    db.categories := db.categories[id := Category(v.value.name, v.value.isActive)];
    db.nextCategoryId := id + 1;
    r := Ok(id);
  }

  /** A published post as `show` lists it: `name`, `published_at` and the
      appended `word_count` (the id is the key it is listed under). */
  datatype PostSummary = PostSummary(name: string, publishedAt: int, wordCount: nat)

  /** `show` as written: the published posts are loaded with the columns
      `id`, `name` and `published_at` only, so the appended `word_count` reads
      a missing `content` and reports 0 for every post. */
  method ShowAsWritten(db: Tables, id: Id, now: int) returns (r: Response<(Category, map<Id, PostSummary>)>)
    ensures id !in db.categories <==> r == NotFound
    ensures !r.Unprocessable?
    ensures r.Ok? ==> r.value.0 == db.categories[id]
    ensures r.Ok? ==> forall p :: p in r.value.1 <==>
              p in CategoryModel.PostsOf(db.posts, db.links, id) && db.posts[p].publishedAt <= now
    ensures r.Ok? ==> forall p :: p in r.value.1 ==>
              && r.value.1[p].name == db.posts[p].name
              && r.value.1[p].publishedAt == db.posts[p].publishedAt
              && r.value.1[p].wordCount == 0
  {
    if id !in db.categories {
      return NotFound;
    }
    var published := CategoryModel.PublishedPostsOf(db.posts, db.links, id, now);
    forall p ensures p in published <==>
      p in CategoryModel.PostsOf(db.posts, db.links, id) && db.posts[p].publishedAt <= now
    {
      CategoryModel.PublishedPostsExactly(db.posts, db.links, id, now, p);
    }
    var summaries := map p | p in published && p in db.posts ::
      PostSummary(db.posts[p].name, db.posts[p].publishedAt, PostModel.WordCountOf(None));
    r := Ok((db.categories[id], summaries));
  }

  /** `show`: the category with its published posts, each listed with the
      word count of its actual content. */
  method Show(db: Tables, id: Id, now: int) returns (r: Response<(Category, map<Id, PostSummary>)>)
    ensures id !in db.categories <==> r == NotFound
    ensures !r.Unprocessable?
    ensures r.Ok? ==> r.value.0 == db.categories[id]
    ensures r.Ok? ==> forall p :: p in r.value.1 <==>
              p in CategoryModel.PostsOf(db.posts, db.links, id) && db.posts[p].publishedAt <= now
    ensures r.Ok? ==> forall p :: p in r.value.1 ==>
              && r.value.1[p].name == db.posts[p].name
              && r.value.1[p].publishedAt == db.posts[p].publishedAt
              && r.value.1[p].wordCount == PostModel.WordCountAttribute(db.posts[p])
              && (r.value.1[p].wordCount == 0 <==> db.posts[p].content == "0" || WordCounter.Blank(db.posts[p].content))
  {
    if id !in db.categories {
      return NotFound;
    }
    var published := CategoryModel.PublishedPostsOf(db.posts, db.links, id, now);
    forall p ensures p in published <==>
      p in CategoryModel.PostsOf(db.posts, db.links, id) && db.posts[p].publishedAt <= now
    {
      CategoryModel.PublishedPostsExactly(db.posts, db.links, id, now, p);
    }
    var summaries := map p | p in published && p in db.posts ::
      PostSummary(db.posts[p].name, db.posts[p].publishedAt, PostModel.WordCountAttribute(db.posts[p]));
    forall p | p in summaries
      ensures summaries[p].wordCount == 0 <==> db.posts[p].content == "0" || WordCounter.Blank(db.posts[p].content)
    {
      PostModel.WordCountAttributeZero(db.posts[p]);
    }
    r := Ok((db.categories[id], summaries));
  }

  /** `update`: look the category up, validate with its own id excluded from
      the uniqueness check, then overwrite its name and `is_active`. */
  method Update(db: Tables, id: Id, req: CategoryRequest.UpsertCategory) returns (r: Response<Category>)
    requires db.Valid()
    modifies db
    ensures db.Valid()
    ensures id !in old(db.categories) ==> r == NotFound && unchanged(db)
    ensures id in old(db.categories) ==>
      var v := CategoryRequest.Validate(req, old(db.categories), Some(id));
      if v.Fails? then r == Unprocessable(v.errors) && unchanged(db)
      else
        && r == Ok(Category(v.value.name, v.value.isActive))
        && db.categories == old(db.categories)[id := r.value]
        && db.categories.Keys == old(db.categories.Keys)
        && db.posts == old(db.posts) && db.links == old(db.links)
        && db.nextCategoryId == old(db.nextCategoryId) && db.nextPostId == old(db.nextPostId)
  {
    if id !in db.categories {
      return NotFound;
    }
    var v := CategoryRequest.Validate(req, db.categories, Some(id));
    if v.Fails? {
      return Unprocessable(v.errors);
    }
    var c := Category(v.value.name, v.value.isActive);
    db.categories := db.categories[id := c];
    r := Ok(c);
  }

  /** `destroy`: delete the row; the junction rows naming it go with it
      (the schema's cascading foreign key). */
  method Destroy(db: Tables, id: Id) returns (r: Response<()>)
    requires db.Valid()
    modifies db
    ensures db.Valid()
    ensures id !in old(db.categories) ==> r == NotFound && unchanged(db)
    ensures id in old(db.categories) ==>
      && r == Ok(())
      && db.categories == old(db.categories) - {id}
      && db.links == set l | l in old(db.links) && l.0 != id
      && db.posts == old(db.posts)
      && db.nextCategoryId == old(db.nextCategoryId) && db.nextPostId == old(db.nextPostId)
  {
    if id !in db.categories {
      return NotFound;
    }
    db.categories := db.categories - {id};
    db.links := set l | l in db.links && l.0 != id;
    r := Ok(());
  }

  /** Deleting the same category twice: the second call is not found, as is
      a delete of an id that never existed. */
  method DestroyTwice(db: Tables, id: Id) returns (first: Response<()>, second: Response<()>)
    requires db.Valid()
    modifies db
    ensures db.Valid()
    ensures first == (if id in old(db.categories) then Ok(()) else NotFound)
    ensures second == NotFound
    ensures id !in db.categories
  {
    first := Destroy(db, id);
    second := Destroy(db, id);
  }
}
