/** The rules a post create or update request must pass. The request class
    itself is not part of this model; its rules are the ones the feature tests
    exercise: `name` required and a string, `content` required, a string and
    at least `minContent` characters long, `published_at` required and a
    parseable date, `categories` a list whose every element is the id of an
    existing category (an empty list is allowed). */
module PostRequest {
  import opened Schema
  import opened Validation

  datatype UpsertPost = UpsertPost(name: Value, content: Value, publishedAt: Value, categories: Value)

  /** The validated attributes: the post's columns and its category ids. */
  datatype PostInput = PostInput(name: string, content: string, publishedAt: int, categoryIds: set<Id>)

  predicate NameValid(req: UpsertPost)
  {
    Required(req.name) && IsString(req.name)
  }

  predicate ContentValid(req: UpsertPost, minContent: nat)
  {
    Required(req.content) && IsString(req.content) && |req.content.s| >= minContent
  }

  /** `date`: the string parses to an instant. */
  predicate PublishedAtValid(req: UpsertPost, parseDate: string -> Option<int>)
  {
    Required(req.publishedAt) && IsString(req.publishedAt) && parseDate(req.publishedAt.s).Some?
  }

  /** `categories.*` must exist in `categories.id`. */
  predicate CategoriesValid(req: UpsertPost, categories: map<Id, Category>)
  {
    req.categories.List? &&
    forall k :: 0 <= k < |req.categories.items| ==>
      req.categories.items[k].Int? && req.categories.items[k].i in categories
  }

  function CategoryIds(items: seq<Value>): set<Id>
    requires forall k :: 0 <= k < |items| ==> items[k].Int?
  {
    set k | 0 <= k < |items| :: items[k].i
  }

  function Validate(req: UpsertPost, categories: map<Id, Category>, minContent: nat, parseDate: string -> Option<int>): (r: Validated<PostInput>)
    ensures r.Passes? <==>
              NameValid(req) && ContentValid(req, minContent) &&
              PublishedAtValid(req, parseDate) && CategoriesValid(req, categories)
    ensures r.Passes? ==>
              && req.name == Str(r.value.name) && !TrimsToEmpty(r.value.name)
              && req.content == Str(r.value.content) && |r.value.content| >= minContent
              && req.publishedAt.Str? && parseDate(req.publishedAt.s) == Some(r.value.publishedAt)
              && r.value.categoryIds <= categories.Keys
              && (forall c :: c in r.value.categoryIds <==> Int(c) in req.categories.items)
    ensures r.Fails? ==>
              && (Name in r.errors <==> !NameValid(req))
              && (Content in r.errors <==> !ContentValid(req, minContent))
              && (PublishedAt in r.errors <==> !PublishedAtValid(req, parseDate))
              && (Categories in r.errors <==> !CategoriesValid(req, categories))
              && IsActive !in r.errors
  {
    var errors :=
      ErrorIf(!NameValid(req), Name) + ErrorIf(!ContentValid(req, minContent), Content) +
      ErrorIf(!PublishedAtValid(req, parseDate), PublishedAt) + ErrorIf(!CategoriesValid(req, categories), Categories);
    if errors == {} then
      var ids := CategoryIds(req.categories.items);
      assert forall c :: c in ids <==> Int(c) in req.categories.items by {
        forall c ensures c in ids <==> Int(c) in req.categories.items {
          if Int(c) in req.categories.items {
            var k :| 0 <= k < |req.categories.items| && req.categories.items[k] == Int(c);
          }
        }
      }
      Passes(PostInput(req.name.s, req.content.s, parseDate(req.publishedAt.s).value, ids))
    else Fails(errors)
  }

  /** An empty request body is rejected on every field. */
  lemma RejectsEmptyRequest(categories: map<Id, Category>, minContent: nat, parseDate: string -> Option<int>)
    ensures Validate(UpsertPost(Missing, Missing, Missing, Missing), categories, minContent, parseDate)
            == Fails({Name, Content, PublishedAt, Categories})
  {
  }

  /** A list naming an id that is not a category is rejected on `categories`. */
  lemma RejectsUnknownCategory(req: UpsertPost, categories: map<Id, Category>, minContent: nat, parseDate: string -> Option<int>, unknown: Id)
    requires req.categories.List? && Int(unknown) in req.categories.items && unknown !in categories
    ensures Validate(req, categories, minContent, parseDate).Fails?
    ensures Categories in Validate(req, categories, minContent, parseDate).errors
  {
  }

  /** Content shorter than the minimum is rejected on `content`. */
  lemma RejectsShortContent(req: UpsertPost, categories: map<Id, Category>, minContent: nat, parseDate: string -> Option<int>)
    requires req.content.Str? && |req.content.s| < minContent
    ensures Validate(req, categories, minContent, parseDate).Fails?
    ensures Content in Validate(req, categories, minContent, parseDate).errors
  {
  }

  /** A date that does not parse is rejected on `published_at`. */
  lemma RejectsUnparseableDate(req: UpsertPost, categories: map<Id, Category>, minContent: nat, parseDate: string -> Option<int>)
    requires req.publishedAt.Str? && parseDate(req.publishedAt.s) == None
    ensures Validate(req, categories, minContent, parseDate).Fails?
    ensures PublishedAt in Validate(req, categories, minContent, parseDate).errors
  {
  }

  /** An empty name is rejected on `name`. */
  lemma RejectsEmptyName(req: UpsertPost, categories: map<Id, Category>, minContent: nat, parseDate: string -> Option<int>)
    requires req.name == Str("")
    ensures Validate(req, categories, minContent, parseDate).Fails?
    ensures Name in Validate(req, categories, minContent, parseDate).errors
  {
  }
}
