/** `PostsController`: list, create, show, update and delete posts.
    Route-model binding becomes an explicit lookup that answers `NotFound`;
    `now` is the instant the request reads the clock. */
module PostsController {
  import opened Schema
  import opened Validation
  import opened Database
  import PostModel
  import PostRequest
  import WordCounter

  /** Every id names a post, and the publication instants never increase along the list. */
  predicate ByDateDesc(posts: map<Id, Post>, s: seq<Id>)
  {
    && (forall i :: 0 <= i < |s| ==> s[i] in posts)
    && (forall i, j :: 0 <= i < j < |s| ==> posts[s[i]].publishedAt >= posts[s[j]].publishedAt)
  }

  predicate Distinct(s: seq<Id>)
  {
    forall i, j :: 0 <= i < j < |s| ==> s[i] != s[j]
  }

  /** Inserts `id` into a list ordered by `published_at` descending. */
  function InsertByDate(posts: map<Id, Post>, s: seq<Id>, id: Id): (r: seq<Id>)
    requires id in posts && ByDateDesc(posts, s)
    ensures ByDateDesc(posts, r)
    ensures |r| == |s| + 1
    ensures r[0] == id || (s != [] && r[0] == s[0])
    ensures forall x :: x in r <==> x in s || x == id
    ensures Distinct(s) && id !in s ==> Distinct(r)
  {
    if s == [] || posts[s[0]].publishedAt <= posts[id].publishedAt then [id] + s
    else
      var rest := InsertByDate(posts, s[1..], id);
      assert Distinct(s) && id !in s ==> s[0] !in rest by {
        if Distinct(s) && id !in s {
          assert forall k :: 0 <= k < |s[1..]| ==> s[1..][k] != s[0];
        }
      }
      assert posts[s[0]].publishedAt >= posts[rest[0]].publishedAt;
      [s[0]] + rest
  }

  /** `index`: the published posts, latest publication first. The table is
      scanned in id order and each published row is placed by its date. */
  method Index(db: Tables, now: int) returns (r: seq<Id>)
    requires db.Valid()
    ensures forall id :: id in r <==> id in db.posts && db.posts[id].publishedAt <= now
    ensures Distinct(r)
    ensures ByDateDesc(db.posts, r)
  {
    r := [];
    var k := 1;
    while k < db.nextPostId
      invariant 1 <= k <= db.nextPostId
      invariant forall id :: id in r <==> id in db.posts && db.posts[id].publishedAt <= now && id < k
      invariant Distinct(r)
      invariant ByDateDesc(db.posts, r)
    {
      if k in db.posts && PostModel.IsPublished(db.posts[k], now) {
        r := InsertByDate(db.posts, r, k);
      }
      k := k + 1;
    }
  }

  /** `store`: validate, insert the post with the next id, then attach its categories. */
  method Store(db: Tables, req: PostRequest.UpsertPost, minContent: nat, parseDate: string -> Option<int>)
    returns (r: Response<Id>)
    requires db.Valid()
    modifies db
    ensures db.Valid()
    ensures var v := PostRequest.Validate(req, old(db.categories), minContent, parseDate);
      if v.Fails? then r == Unprocessable(v.errors) && unchanged(db)
      else
        && r == Ok(old(db.nextPostId))
        && r.value !in old(db.posts)
        && db.posts == old(db.posts)[r.value := Post(v.value.name, v.value.content, v.value.publishedAt)]
        && db.links == PostModel.Attach(old(db.links), r.value, v.value.categoryIds)
        && PostModel.CategoriesOf(db.categories, db.links, r.value) == v.value.categoryIds
        && db.nextPostId == old(db.nextPostId) + 1
        && db.categories == old(db.categories) && db.nextCategoryId == old(db.nextCategoryId)
  {
    var v := PostRequest.Validate(req, db.categories, minContent, parseDate);
    if v.Fails? {
      return Unprocessable(v.errors);
    }
    var id := db.nextPostId;
    assert PostModel.Detach(db.links, id) == db.links;
    PostModel.ReplaceCategoriesExact(db.categories, db.links, id, v.value.categoryIds);
    db.posts := db.posts[id := Post(v.value.name, v.value.content, v.value.publishedAt)];
    db.nextPostId := id + 1;
    db.links := PostModel.Attach(db.links, id, v.value.categoryIds);
    r := Ok(id);
  }

  /** `show`: the post with its categories; a post due in the future is not found. */
  method Show(db: Tables, id: Id, now: int) returns (r: Response<(Post, set<Id>)>)
    ensures r.Ok? <==> id in db.posts && db.posts[id].publishedAt <= now
    ensures !r.Ok? ==> r == NotFound
    ensures r.Ok? ==> r.value.0 == db.posts[id] && r.value.1 == PostModel.CategoriesOf(db.categories, db.links, id)
  {
    if id !in db.posts {
      return NotFound;
    }
    var post := db.posts[id];
    var categories := PostModel.CategoriesOf(db.categories, db.links, id);
    if post.publishedAt > now {
      return NotFound;
    }
    r := Ok((post, categories));
  }

  /** `update`: look the post up, validate, overwrite its columns, then detach
      every category and attach the submitted ones. */
  method Update(db: Tables, id: Id, req: PostRequest.UpsertPost, minContent: nat, parseDate: string -> Option<int>)
    returns (r: Response<Post>)
    requires db.Valid()
    modifies db
    ensures db.Valid()
    ensures id !in old(db.posts) ==> r == NotFound && unchanged(db)
    ensures id in old(db.posts) ==>
      var v := PostRequest.Validate(req, old(db.categories), minContent, parseDate);
      if v.Fails? then r == Unprocessable(v.errors) && unchanged(db)
      else
        && r == Ok(Post(v.value.name, v.value.content, v.value.publishedAt))
        && db.posts == old(db.posts)[id := r.value]
        && PostModel.WordCountAttribute(db.posts[id]) ==
           (if PostModel.Falsy(v.value.content) then 0 else WordCounter.WordCount(v.value.content))
        && db.links == PostModel.Attach(PostModel.Detach(old(db.links), id), id, v.value.categoryIds)
        && PostModel.CategoriesOf(db.categories, db.links, id) == v.value.categoryIds
        && (forall l: Link :: l.1 != id ==> (l in db.links <==> l in old(db.links)))
        && db.categories == old(db.categories)
        && db.nextCategoryId == old(db.nextCategoryId) && db.nextPostId == old(db.nextPostId)
  {
    if id !in db.posts {
      return NotFound;
    }
    var v := PostRequest.Validate(req, db.categories, minContent, parseDate);
    if v.Fails? {
      return Unprocessable(v.errors);
    }
    ghost var before := db.links;
    var post := Post(v.value.name, v.value.content, v.value.publishedAt);
    db.posts := db.posts[id := post];
    db.links := PostModel.Detach(db.links, id);
    db.links := PostModel.Attach(db.links, id, v.value.categoryIds);
    PostModel.ReplaceCategoriesExact(db.categories, before, id, v.value.categoryIds);
    forall l: Link | l.1 != id ensures l in db.links <==> l in before {
      PostModel.ReplaceCategoriesLocal(before, id, v.value.categoryIds, l);
    }
    r := Ok(post);
  }

  /** `destroy`: delete the post; its junction rows go with it (the schema's
      cascading foreign key). */
  method Destroy(db: Tables, id: Id) returns (r: Response<()>)
    requires db.Valid()
    modifies db
    ensures db.Valid()
    ensures id !in old(db.posts) ==> r == NotFound && unchanged(db)
    ensures id in old(db.posts) ==>
      && r == Ok(())
      && db.posts == old(db.posts) - {id}
      && db.links == PostModel.Detach(old(db.links), id)
      && db.categories == old(db.categories)
      && db.nextCategoryId == old(db.nextCategoryId) && db.nextPostId == old(db.nextPostId)
  {
    if id !in db.posts {
      return NotFound;
    }
    db.posts := db.posts - {id};
    db.links := PostModel.Detach(db.links, id);
    r := Ok(());
  }

  /** Deleting the same post twice: the second call is not found. */
  method DestroyTwice(db: Tables, id: Id) returns (first: Response<()>, second: Response<()>)
    requires db.Valid()
    modifies db
    ensures db.Valid()
    ensures first == (if id in old(db.posts) then Ok(()) else NotFound)
    ensures second == NotFound
    ensures id !in db.posts
  {
    first := Destroy(db, id);
    second := Destroy(db, id);
  }

  /** Moving a published post's date into the future hides it: afterwards
      `show` answers not found and `index` leaves it out. */
  method RescheduleHides(db: Tables, id: Id, req: PostRequest.UpsertPost, minContent: nat,
                         parseDate: string -> Option<int>, now: int)
    returns (updated: Response<Post>, shown: Response<(Post, set<Id>)>, listed: seq<Id>)
    requires db.Valid()
    modifies db
    ensures db.Valid()
    ensures updated.Ok? && updated.value.publishedAt > now ==> shown == NotFound && id !in listed
  {
    updated := Update(db, id, req, minContent, parseDate);
    shown := Show(db, id, now);
    listed := Index(db, now);
  }
}
