# Blog data rules, modelled in Dafny

This project models the data rules of a small Laravel blog backend. The blog
keeps three tables:

- `categories`: each row has a `name` and an `is_active` flag.
- `posts`: each row has a `name`, a `content` and a `published_at` instant.
- `category_post`: a junction table of (category id, post id) pairs.

Two controllers list, create, show, update and delete rows of these tables.
The model keeps the tables in memory. A class `Database.Tables` holds the
tables as maps and a set, plus the two auto-increment counters. The
controller actions are methods that read or change that object.

The model covers:

- the `published` scope: a post is published when `published_at <= now`;
- the `active` scope on categories;
- the `posts`, `published_posts` and `categories` relations;
- the `word_count` attribute, recomputed from a post's content on every read;
- the category request rules: `name` required, a string and unique, with the
  category being updated left out of the uniqueness check; `is_active`
  required and a boolean;
- the post request rules that the feature tests exercise.

`now` is a parameter of every action that reads the clock. Parsing a date is a
parameter `parseDate: string -> Option<int>`. The minimum content length of a
post is a parameter `minContent`.

Modules:

- `Schema`: the rows and the unique index on category names.
- `WordCounter`: words as maximal runs of non-whitespace characters.
- `Validation`: Laravel's `required`, `string` and `boolean` rules, and PHP's `trim`.
- `PostModel`: `app/Models/Post.php`.
- `CategoryModel`: `app/Models/Category.php`.
- `CategoryRequest`: `app/Http/Requests/UpsertCategoryRequest.php`.
- `PostRequest`: the post request rules, as the tests exercise them.
- `Database`: the tables, their invariant `Tables.Valid()`, and `Response`.
- `CategoriesController`, `PostsController`: the two controllers.

`Tables.Valid()` states that:

- category names are unique and never blank;
- every id was handed out by its table's counter;
- every junction row joins an existing category to an existing post.

Every state-changing action requires `Valid()` and preserves it. An action
first looks its row up, which is route-model binding: a missing id gives
`NotFound`. Then it validates, and a failure gives `Unprocessable` with the
failing fields. Only then does it write. A rejected request leaves every
table unchanged.

The `word_count` getter tests `$this->content` for PHP truthiness. A missing
(null) content and the string "0" are therefore reported as having 0 words.
`PostModel.WordCountOf` keeps this behaviour, and
`PostModel.WordCountAttributeZero` states it for fully loaded posts.

## Definitions

The table below lists the members whose contracts state properties. The
definitions those contracts speak about model these source lines:

- `PostModel.IsPublished`, `PostModel.Published`: the `published` scope, app/Models/Post.php:37-40; characterised by `PostModel.PublishedAtBoundary`, `PostModel.PublishedGrowsWithTime`, `PostsController.Index` and `PostsController.Show`.
- `PostModel.WordCountOf`, `PostModel.WordCountAttribute`: the `word_count` getter, app/Models/Post.php:21-23 and 30-35; characterised by `PostModel.WordCountAttributeZero` and `PostModel.UnloadedContentUndercounts`.
- `PostModel.CategoriesOf`: the `categories` relation, app/Models/Post.php:25-28; characterised by `CategoryModel.RelationSymmetric` and `PostModel.ReplaceCategoriesExact`.
- `PostModel.Detach`, `PostModel.Attach`: `detach()` and `attach()` on that relation, app/Http/Controllers/PostsController.php:32 and 64-65; characterised by `PostModel.ReplaceCategoriesExact` and `PostModel.ReplaceCategoriesLocal`.
- `CategoryModel.PostsOf`: the `posts` relation, app/Models/Category.php:15-18; characterised by `CategoryModel.RelationSymmetric`.
- `CategoryModel.PublishedPostsOf`: the `published_posts` relation, app/Models/Category.php:20-23; characterised by `CategoryModel.PublishedPostsExactly` and `CategoryModel.PublishedPostsBounded`.
- `CategoryModel.Active`: the `active` scope, app/Models/Category.php:25-28; characterised by `CategoriesController.Index`.

## Model

| member | source | states |
|---|---|---|
| `PostModel.PublishedAtBoundary` | app/Models/Post.php:39 | a post whose `published_at` equals `now` is published; one instant earlier it is not |
| `PostModel.PublishedGrowsWithTime` | app/Models/Post.php:37-40 | as the clock moves forward, every published post stays published |
| `PostModel.WordCountAttributeZero` | app/Models/Post.php:30-35 | `word_count` is 0 for empty content; it is 0 exactly when the content is blank or is the PHP-falsy string "0" |
| `PostModel.ReplaceCategoriesExact` | app/Http/Controllers/PostsController.php:64-65 | detach-all then attach leaves the post's category set equal to the attached ids, with no earlier association left |
| `PostModel.ReplaceCategoriesLocal` | app/Http/Controllers/PostsController.php:62-65 | detach then attach for one post leaves the junction rows of every other post as they were |
| `PostModel.UnloadedContentUndercounts` | app/Http/Controllers/CategoriesController.php:34 | a post loaded without its content reports 0 words, while the same post loaded in full reports a positive count whenever its content holds a word |
| `CategoryModel.PublishedPostsExactly` | app/Models/Category.php:20-23 | a category's published posts are exactly its posts with `published_at <= now` |
| `CategoryModel.PublishedPostsBounded` | app/Models/Category.php:20-23 | a category's published posts are a subset of its posts, so their count never exceeds the number of its posts |
| `CategoryModel.RelationSymmetric` | app/Models/Category.php:15-18 | post p is among category c's posts exactly when c is among p's categories |
| `WordCounter.Words` | tests/Unit/WordCounterTest.php:10-27 | every word is non-empty and holds no whitespace |
| `WordCounter.WordLength` | app/Models/Post.php:33 | the leading word is the longest whitespace-free prefix |
| `WordCounter.WordCountIsWordStarts` | app/Models/Post.php:33 | the word count equals the number of positions where a word starts, i.e. the number of maximal non-whitespace runs |
| `WordCounter.WordCountZeroIffBlank` | app/Models/Post.php:33 | text has no words exactly when it is empty or all whitespace |
| `WordCounter.WordCountExamples` | tests/Unit/WordCounterTest.php:10-27 | `""` and a run of spaces have 0 words, `"hola"` has 1, `"hola hola"` has 2 |
| `CategoryRequest.Validate` | app/Http/Requests/UpsertCategoryRequest.php:22-29 | accepts exactly when the name is a non-blank string held by no category other than the excluded one and `is_active` is a boolean; the errors name exactly the failing fields; validation reads the table and writes nothing |
| `CategoryRequest.RejectsBadName` | app/Http/Requests/UpsertCategoryRequest.php:26 | a missing, null, empty, blank or non-string (e.g. integer 10) name is rejected on `name` |
| `CategoryRequest.RejectsBadIsActive` | app/Http/Requests/UpsertCategoryRequest.php:27 | a missing or non-boolean `is_active` is rejected on `is_active` |
| `CategoryRequest.CreateRejectsTakenName` | app/Http/Requests/UpsertCategoryRequest.php:24 | on create, a name any category already holds is rejected |
| `CategoryRequest.UpdateRejectsOthersName` | app/Http/Requests/UpsertCategoryRequest.php:24 | on update, a name held by a different category is rejected |
| `CategoryRequest.UpdateAcceptsOwnName` | app/Http/Requests/UpsertCategoryRequest.php:24 | on update, resubmitting the category's own name with a boolean `is_active` is accepted |
| `PostRequest.Validate` | tests/Feature/PostsApiTest.php:79-104 | accepts exactly when name, content (of at least the minimum length), date and category ids are all valid; the accepted data carries the submitted values and only existing category ids; the errors name exactly the failing fields |
| `PostRequest.RejectsEmptyRequest` | tests/Feature/PostsApiTest.php:89 | an empty body is rejected on name, content, `published_at` and categories |
| `PostRequest.RejectsUnknownCategory` | tests/Feature/PostsApiTest.php:82-88 | a category id that names no category is rejected on `categories` |
| `PostRequest.RejectsShortContent` | tests/Feature/PostsApiTest.php:90-96 | content shorter than the minimum is rejected on `content` |
| `PostRequest.RejectsUnparseableDate` | tests/Feature/PostsApiTest.php:97-103 | a date that does not parse is rejected on `published_at` |
| `PostRequest.RejectsEmptyName` | tests/Feature/PostsApiTest.php:132-137 | an empty name is rejected on `name` |
| `CategoriesController.Index` | app/Http/Controllers/CategoriesController.php:11-18 | lists exactly the active categories, each with `published_posts_count` equal to the number of its posts published at `now` and bounded by its number of posts |
| `CategoriesController.Store` | app/Http/Controllers/CategoriesController.php:20-30 | on valid input, inserts exactly the validated name and `is_active` under a fresh id and touches nothing else; on invalid input, changes nothing |
| `CategoriesController.ShowAsWritten` | app/Http/Controllers/CategoriesController.php:32-39 | as written: an unknown id is not found; otherwise returns the category and exactly its posts with `published_at <= now`, each with its name and date and a `word_count` of 0, because `content` is not loaded |
| `CategoriesController.Show` | app/Http/Controllers/CategoriesController.php:32-39 | corrected: an unknown id is not found; otherwise returns the category and exactly its posts with `published_at <= now`, each with its name, date and the word count of its content, which is 0 exactly when that content is blank or "0" |
| `CategoriesController.Update` | app/Http/Controllers/CategoriesController.php:41-51 | an unknown id is not found; on valid input, sets name and `is_active` to the submitted values, keeps the id, and leaves other categories, posts and links unchanged |
| `CategoriesController.Destroy` | app/Http/Controllers/CategoriesController.php:53-59 | an unknown id is not found; otherwise removes the category and its junction rows and keeps its posts |
| `CategoriesController.DestroyTwice` | tests/Feature/CategoriesApiTest.php:195-212 | a second delete of the same id is not found |
| `PostsController.InsertByDate` | app/Http/Controllers/PostsController.php:17 | inserting into a list ordered by `published_at` descending keeps it ordered and adds exactly the one post |
| `PostsController.Index` | app/Http/Controllers/PostsController.php:13-20 | lists each post with `published_at <= now` exactly once, and no other post, in non-increasing `published_at` order |
| `PostsController.Store` | app/Http/Controllers/PostsController.php:25-36 | on valid input, inserts the post under a fresh id with the submitted name, content and date, and its category set equals the submitted ids; on invalid input, inserts no post and no junction row |
| `PostsController.Show` | app/Http/Controllers/PostsController.php:41-51 | succeeds exactly when the post exists and `published_at <= now`, returning it with its categories; a future-dated post is not found |
| `PostsController.Update` | app/Http/Controllers/PostsController.php:56-70 | an unknown id is not found; on valid input, overwrites the post's columns, so its `word_count` now counts the words of the new content; its category set becomes exactly the submitted ids; the junction rows of other posts and the categories are unchanged |
| `PostsController.Destroy` | app/Http/Controllers/PostsController.php:75-82 | an unknown id is not found; otherwise removes the post and its junction rows and keeps the categories |
| `PostsController.DestroyTwice` | tests/Feature/PostsApiTest.php:166-177 | a second delete of the same id is not found |
| `PostsController.RescheduleHides` | app/Http/Controllers/PostsController.php:44-45 | after an update moves a post's date past `now`, `show` answers not found and `index` leaves the post out |

## Findings

| source | as written | input that shows it | evidently intended | confidence | as-written member | corrected member |
|---|---|---|---|---|---|---|
| app/Http/Controllers/CategoriesController.php:34 | `show` loads the published posts with the columns `id`, `name` and `published_at` only; the appended `word_count` (app/Models/Post.php:21-23, 33) then reads a null `content` and reports 0 | a category with one published post whose content is "hola": `show` lists that post with `word_count` 0 | each listed post's `word_count` counts the words of its content (1 for "hola") | medium, not executed | `CategoriesController.ShowAsWritten`, `PostModel.UnloadedContentUndercounts` | `CategoriesController.Show` |

## Left out

- HTTP mechanics are not modelled: routing, status codes, JSON shaping and the `id,name` column projections of eager loads. Actions return ids, rows and sets of ids.
- Timestamps (`created_at`, `updated_at`) are not modelled.
- Dates are integers. Parsing (Carbon) and time zones are the `parseDate` parameter, and the clock is the `now` parameter.
- The word counter service is not part of this model. A word is assumed to be a maximal run of characters other than space, tab, newline and carriage return. This agrees with the unit tests of the service.
- The post request class is not part of this model. Its rules are inferred from the feature tests. An empty `categories` list is assumed to be allowed, and every element must be an integer id of an existing category. The minimum content length is a parameter.
- Category ids submitted for a post are treated as a set. A list that repeats an id attaches it once, so the database's reaction to a duplicate junction row is not modelled.
- The schema migrations are not part of this model. Deleting a category or a post is assumed to cascade to its junction rows, as through a cascading foreign key. Category names are compared exactly, as under a binary collation.
- The request middleware that trims strings and turns empty strings into null is not modelled. The `required` rule's own trim check is modelled.
- A stored post always has a content string, because every post gets its content from a validated request. Content is null only when a post is loaded without its `content` column; see the finding above.
- A category request body is reduced to `name` and `is_active`. The request's `category` property reads a body key named `category` before the route parameter. A body that carries such a key can therefore change or drop the update's self-exclusion from the uniqueness rule, or fail on `->id`. That shadowing is not modelled: on update the excluded id is always the bound category's.
- Validation error messages are reduced to the set of failing fields.
- There is no transaction around a post's insert and its attach. The model has no failure between the two steps, and concurrent requests are not modelled.
- Model factories, seeders and the test harness are not modelled.
