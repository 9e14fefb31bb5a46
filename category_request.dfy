/** `UpsertCategoryRequest`: the rules a category create or update request
    must pass. `name` is required, a string and unique among categories, with
    the category being updated (the route's `category`) left out of the
    uniqueness check; `is_active` is required and a boolean. Validation reads
    the `categories` table and writes nothing. */
module CategoryRequest {
  import opened Schema
  import opened Validation

  datatype UpsertCategory = UpsertCategory(name: Value, isActive: Value)

  /** The validated attributes handed to `Category::create` / `$category->update`. */
  datatype CategoryInput = CategoryInput(name: string, isActive: bool)

  /** `unique:categories,name` (with `ignore` absent) or
      `unique:categories,name,<ignore>`: no category other than `ignore` holds `name`. */
  predicate NameFree(categories: map<Id, Category>, name: string, ignore: Option<Id>)
  {
    forall id :: id in categories && ignore != Some(id) ==> categories[id].name != name
  }

  predicate NameValid(req: UpsertCategory, categories: map<Id, Category>, ignore: Option<Id>)
  {
    Required(req.name) && IsString(req.name) && NameFree(categories, req.name.s, ignore)
  }

  predicate IsActiveValid(req: UpsertCategory)
  {
    Required(req.isActive) && IsBoolean(req.isActive)
  }

  /** Runs the rules; `ignore` is the id of the category being updated, or
      `None` on create. */
  function Validate(req: UpsertCategory, categories: map<Id, Category>, ignore: Option<Id>): (r: Validated<CategoryInput>)
    ensures r.Passes? <==> NameValid(req, categories, ignore) && IsActiveValid(req)
    ensures r.Passes? ==>
              && req.name == Str(r.value.name)
              && !TrimsToEmpty(r.value.name)
              && (forall id :: id in categories && ignore != Some(id) ==> categories[id].name != r.value.name)
              && (r.value.isActive <==> req.isActive in {Bool(true), Int(1), Str("1")})
    ensures r.Fails? ==>
              && (Name in r.errors <==> !NameValid(req, categories, ignore))
              && (IsActive in r.errors <==> !IsActiveValid(req))
              && r.errors <= {Name, IsActive}
  {
    var errors := ErrorIf(!NameValid(req, categories, ignore), Name) + ErrorIf(!IsActiveValid(req), IsActive);
    if errors == {} then Passes(CategoryInput(req.name.s, AsBool(req.isActive)))
    else Fails(errors)
  }

  /** A request without a name, or with a null, empty or whitespace-only name,
      or with a name that is not a string (such as the integer 10), is rejected
      on `name`, whatever else it holds. */
  lemma RejectsBadName(req: UpsertCategory, categories: map<Id, Category>, ignore: Option<Id>)
    requires !req.name.Str? || TrimsToEmpty(req.name.s)
    ensures Validate(req, categories, ignore).Fails?
    ensures Name in Validate(req, categories, ignore).errors
  {
  }

  /** `is_active` must be present and a boolean. */
  lemma RejectsBadIsActive(req: UpsertCategory, categories: map<Id, Category>, ignore: Option<Id>)
    requires !IsBoolean(req.isActive)
    ensures Validate(req, categories, ignore).Fails?
    ensures IsActive in Validate(req, categories, ignore).errors
    ensures req.isActive == Missing ==> IsActive in Validate(req, categories, ignore).errors
  {
  }

  /** On create, a name some category already holds is rejected. */
  lemma CreateRejectsTakenName(req: UpsertCategory, categories: map<Id, Category>, holder: Id)
    requires holder in categories && req.name == Str(categories[holder].name)
    ensures Validate(req, categories, None).Fails?
    ensures Name in Validate(req, categories, None).errors
  {
  }

  /** On update, a name held by a different category is still rejected. */
  lemma UpdateRejectsOthersName(req: UpsertCategory, categories: map<Id, Category>, id: Id, holder: Id)
    requires holder in categories && holder != id && req.name == Str(categories[holder].name)
    ensures Validate(req, categories, Some(id)).Fails?
    ensures Name in Validate(req, categories, Some(id)).errors
  {
  }

  /** On update, resubmitting the category's own current name is accepted:
      names are unique, so the only holder of that name is the excluded row. */
  lemma UpdateAcceptsOwnName(req: UpsertCategory, categories: map<Id, Category>, id: Id)
    requires UniqueNames(categories)
    requires id in categories && !TrimsToEmpty(categories[id].name)
    requires req.name == Str(categories[id].name) && IsBoolean(req.isActive)
    ensures Validate(req, categories, Some(id)) == Passes(CategoryInput(categories[id].name, AsBool(req.isActive)))
  {
    forall other | other in categories && other != id
      ensures categories[other].name != categories[id].name
    {
    }
    assert NameFree(categories, categories[id].name, Some(id));
  }
}
