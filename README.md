# kochrezepte-IFA: a verified model of the recipe site's handlers and data model

The application is a small Flask site for sharing cooking recipes. Users
register and log in. They then post comments to a common feed, add recipes
with ingredient lines, and comment on recipes. A JSON API serves the
recipes without any login. This project models in Dafny:

- the address check `is_valid_email`;
- the six tables of `models.py`, with their column widths and UNIQUE columns;
- every request handler of `routes.py`.

It then proves what the handlers promise.

- `tables.dfy` (module `Tables`): rows kept in primary-key order, the
  queries the handlers run on them (`filter_by(...).first()`,
  `filter_by(...).all()`, deletion by key), and lemmas about keys and
  UNIQUE columns.
- `email.dfy` (module `Email`): the pattern
  `^[a-zA-Z0-9_.+-]+@[a-zA-Z0-9-]+\.[a-zA-Z0-9-.]+$`, written as a greedy
  recognizer. It is proved equal to a declarative split
  local `@` label `.` tail. This includes Python's `$`, which also matches
  before one final newline. Module `EmailExamples` checks concrete strings.
- `security.dfy` (module `Security`): werkzeug's salted password hash, with
  the salt as a parameter. A hash accepts its own password and no other.
- `models.dfy` (module `Models`): the database as one value `Db`, holding:
  - the six tables;
  - their AUTO_INCREMENT counters;
  - the invariant `Valid`: keys grow and stay below their counter, strings
    fit their columns, username, email and ingredient name are unique, and
    every ingredient line belongs to a stored recipe.

  Inserts return `None` where the storage layer refuses the commit: a
  value wider than its `String(n)` column, or a repeated UNIQUE value.
  Deleting a user follows the foreign keys the schema declares on the
  user's rows. `recipes.user_id` has no `ON DELETE` rule, so the store
  refuses to delete a user who still owns a recipe. Otherwise the user's
  comments and recipe comments go with the user (`ON DELETE CASCADE`).
- `routes.dfy` (module `Routes`):
  - Requests, forms and responses. A missing `request.form[...]` field is
    400. An exception the handler does not catch is 500. The German
    plain-text replies are a `Message` datatype with their texts.
  - The read-only handlers are functions: `/recipes` and `/recipe/<id>` of
    the database and the session, both API endpoints of the database alone.
  - The handlers that write are methods of the class `App`. Its fields are
    the database and the session's `"user"` entry.
  - The ingredient loop of `/add_recipe` is a `while` loop. It is proved
    against the function `IngredientLines`.
- `routes_properties.dfy` (module `RouteProperties`): properties that span
  handlers:
  - registering then logging in;
  - a second registration with the same username or email;
  - a recipe submitted through `/add_recipe` read back through
    `/api/recipes/<id>`;
  - a user delete that leaves the recipe API unchanged;
  - which rows the ingredient loop keeps.

Four behaviours of the code are easy to misread; the model follows the
code in each:

- `/logout` has no session check, so it answers the same with or without
  a login.
- When `amount` or `unit` carries fewer values than `ingredient_id`, the
  loop raises IndexError (500). It does not skip the row. The recipe
  itself was already committed.
- `add_recipe_comment` does not check that the recipe exists. The comment
  is stored under any recipe id.
- `delete_user` answers 500 for a user who owns a recipe, because the
  store refuses the delete.

## Model

| member | source | states |
|---|---|---|
| Email.Span | models.py:62 | a `+` run of one character class stops at the first character outside the class, and everything before it is in the class |
| Email.SpanIs | models.py:62 | a maximal run of a class is the one the greedy scan finds |
| Email.IsValidEmail | models.py:61-62 | `is_valid_email`: an accepted address is at least five characters long and does not start with `@` |
| Email.IsValidEmailIff | models.py:61-62 | the check accepts s exactly when s splits into a non-empty local part, `@`, a non-empty dot-free label, `.`, a non-empty tail, and then the end or one final newline |
| Email.SplitUnique | models.py:62 | the split of an accepted address is unique: its only `@`, and the first `.` after it |
| Email.AcceptsDecomposition | models.py:61-62 | local + "@" + label + "." + tail over the three classes is accepted, also with one "\n" appended |
| Email.ExactlyOneAt | models.py:62 | an accepted address holds exactly one `@` |
| Email.OnlyAddressCharacters | models.py:62 | an accepted address holds only ASCII letters, digits and `_ . + - @`, except a newline as its last character |
| Email.RejectsWhitespaceAndNonAscii | models.py:62 | a space, tab, carriage return, inner newline or non-ASCII character makes the address invalid |
| Email.RejectsMissingLabelOrDot | models.py:62 | whatever precedes the `@`, an address whose part after that `@` starts with `.` or holds no `.` at all is rejected |
| EmailExamples.AcceptedExamples | models.py:61-62 | "a@b.c" and "a@b.c\n" are accepted |
| EmailExamples.AcceptsPunctuation | models.py:62 | "a.b+c@d-e.f-g.h" is accepted |
| EmailExamples.RejectedExamples | models.py:62 | "", "a@b", "a@.com", "a@b.c\n\n" and "a b@c.de" are rejected |
| Security.GeneratePasswordHash | routes.py:40 | the hash accepts the password it was made from and no other, whatever the salt |
| Security.CheckPasswordHash | routes.py:55 | a hash accepts only the password it records |
| Models.Db.UserNamed | routes.py:11 | finds a user with that username, or there is none |
| Models.Db.UserWithEmail | routes.py:34 | finds a user with that email, or there is none |
| Models.Db.UserById | routes.py:180 | `recipe.user`: finds the user with that id, or there is none |
| Models.Db.RecipeById | routes.py:124 | `Recipe.query.get`: finds the recipe with that id, or there is none |
| Models.Db.IngredientById | routes.py:183 | `ri.ingredient`: finds the ingredient with that id, or there is none |
| Models.Db.LinesOf | routes.py:127 | exactly the ingredient rows of that recipe |
| Models.Db.AddUser | models.py:8-13 | the insert succeeds iff username ≤ 100 and email ≤ 150 characters and neither is stored yet; it appends one user with the next id and changes nothing else |
| Models.Db.AddComment | models.py:16-21 | succeeds iff content ≤ 4096 characters; appends one comment with the next id and changes nothing else |
| Models.Db.AddRecipe | models.py:30-36 | succeeds iff title ≤ 200 characters; appends one recipe with the next id and changes nothing else |
| Models.Db.AddRecipeIngredients | models.py:39-47 | succeeds iff every unit ≤ 50 characters; appends one row per line, in order, with consecutive ids, and changes nothing else |
| Models.Db.AddRecipeComment | models.py:50-58 | succeeds iff content ≤ 4096 characters; appends one recipe comment with the next id, whatever the recipe id, and changes nothing else |
| Models.Db.DeleteUser | models.py:20-35 | refused iff the user owns a recipe (no `ON DELETE` rule on `recipes.user_id`); otherwise removes the user, their comments and their recipe comments (the declared cascade) and changes nothing else |
| Models.EmptyDb | models.py:8-58 | the empty schema satisfies the invariants |
| Models.NewestFirst | routes.py:20 | the feed has as many entries as the table |
| Models.NewestFirstPermutes | routes.py:20 | the feed holds every comment exactly once |
| Models.NewestFirstSorted | routes.py:20 | on a table in id order, the feed is in strictly descending id order |
| Models.LookupsFindStoredUser | models.py:10-12 | on a valid database, looking up a stored user's username, email or id finds that user |
| Models.RecipeByIdFindsStored | models.py:32 | on a valid database, the lookup by a stored recipe's id finds it |
| Models.AddUserKeepsValid | models.py:8-13 | an accepted registration keeps the invariants, and the new user is found by username and by email |
| Models.AddCommentKeepsValid | models.py:16-21 | a new comment keeps the invariants and heads the newest-first feed |
| Models.AddRecipeKeepsValid | models.py:30-36 | a new recipe keeps the invariants, is found by its id and has no ingredient rows yet |
| Models.AddRecipeIngredientsKeepsValid | models.py:39-47 | adding lines to a stored recipe keeps the invariants; the recipe's rows grow by exactly the new rows |
| Models.AddRecipeCommentKeepsValid | models.py:50-58 | a new recipe comment keeps the invariants |
| Models.DeleteUserKeepsValid | models.py:20 | deletion keeps the invariants; the username and email are free again and none of the user's comments remain |
| Routes.Visit | routes.py:9-14 | no session; a session naming no stored user (stale); or the stored user the session names |
| Routes.LoginAccepts | routes.py:54-55 | accepted only for a stored user with that username whose hash accepts the password; never for an unknown username |
| Routes.RegisterRejection | routes.py:29-38 | the first failing check in order: empty field, invalid email, username taken, email taken; none iff all pass |
| Routes.ListRecipes | routes.py:113-118 | without a session, redirect to login; with any session, every recipe in table order |
| Routes.ViewRecipe | routes.py:120-128 | without a session, redirect to login; otherwise the not-found text iff no recipe has the id, else the recipe with exactly its ingredient rows |
| Routes.LinesJson | routes.py:181-187 | fails iff some row's ingredient is missing; otherwise one entry per row, in order, with the ingredient's name and the row's amount and unit |
| Routes.RecipeToJson | routes.py:176-188 | fails iff the author or an ingredient is missing; otherwise the recipe's id, title, instructions, author name and ingredient entries |
| Routes.RecipesToJson | routes.py:151-165 | fails iff some recipe fails; otherwise one object per recipe, in order |
| Routes.ApiListRecipes | routes.py:147-168 | 200 with every recipe's object in table order iff every recipe serializes, else 500 |
| Routes.ApiViewRecipe | routes.py:170-191 | 404 iff no recipe has the id; 200 with that recipe's object, or 500 when it cannot be serialized |
| Routes.Kept | routes.py:97-108 | the lines kept from the first n rows: at most n, each the converted values of one complete row |
| Routes.IngredientLines | routes.py:94-108 | the loop's outcome: fails whenever `amount` or `unit` is shorter than `ingredient_id`; otherwise at most one line per row, each with a non-empty unit and a non-empty amount that `float()` accepts |
| Routes.CollectIngredientLines | routes.py:94-108 | the loop yields exactly `IngredientLines`: fails on a short list or on a complete row that does not convert, else the converted complete rows in order |
| Routes.App.Index | routes.py:7-21 | no session: redirect, nothing changes; stale session: cleared, redirect; GET: the newest-first feed with the user's name; POST: exactly one comment by the user appended (400 without the field, 500 when refused) |
| Routes.App.Register | routes.py:23-47 | GET: the form; POST: the first failing check's text with no write, the storage-failure text when the insert is refused, else one user with the hashed password appended and a redirect to login; session untouched |
| Routes.App.Login | routes.py:49-59 | the session becomes the username iff the user exists and the password matches; otherwise the session stays exactly as it was |
| Routes.App.Logout | routes.py:61-64 | the session entry is gone whatever it was, and the reply is a redirect to login |
| Routes.App.DeleteUser | routes.py:66-76 | refused with no change unless the session names this user; the not-found text with no change if no row exists; 500 with no change when the store refuses the delete; otherwise the user is deleted with the cascade and the session cleared |
| Routes.App.AddRecipe | routes.py:78-111 | session checks as in index; GET: the form with all ingredients and the nine units; POST: one recipe by the user committed first, then its kept lines, or 500 leaving the recipe without lines |
| Routes.App.AddRecipeComment | routes.py:130-144 | session checks as in index; a missing or empty content gives the error text with no write; otherwise exactly one recipe comment under the given id, whether or not that recipe exists |
| RouteProperties.LoginAcceptsIff | routes.py:54-55 | on a valid database, login is accepted iff a stored user has that username and their hash accepts the password |
| RouteProperties.RegisterStoresIffWithinWidths | routes.py:39-46 | once all checks pass, the user is stored iff username ≤ 100 and email ≤ 150 characters |
| RouteProperties.RegisterThenLogin | routes.py:39-57 | after a registration, login with that username succeeds iff the password is the registered one |
| RouteProperties.SecondRegistrationConflicts | routes.py:33-38 | after a registration, the same username is refused with any valid email and password, and the same email is refused under any other username |
| RouteProperties.NewLinesJson | routes.py:181-187 | the JSON of freshly stored lines names each line's ingredient and keeps its amount and unit, in order |
| RouteProperties.RecipeRoundTrip | routes.py:170-191 | a recipe and lines stored as add_recipe stores them come back from the API with status 200 and the same id, title, instructions, author and ingredient entries |
| RouteProperties.LinesJsonAgree | routes.py:181-187 | the ingredient entries depend on the ingredient table alone |
| RouteProperties.RecipesToJsonAgree | routes.py:151-165 | databases that give each recipe the same object give the list the same objects |
| RouteProperties.DeleteUserKeepsRecipeJson | routes.py:176-188 | a delete the store permits leaves every recipe's object as it was |
| RouteProperties.DeleteUserKeepsRecipeApi | routes.py:147-191 | a delete the store permits changes neither API endpoint's answer, for any recipe id |
| RouteProperties.CompleteIndices | routes.py:97-101 | the indices of exactly the complete rows, in increasing order |
| RouteProperties.KeptFollowsCompleteIndices | routes.py:97-108 | the k-th kept line is the converted k-th complete row, and there is one line per complete row |
| RouteProperties.CollectsCompleteRows | routes.py:97-108 | with aligned lists whose complete rows all convert, the loop keeps one line per complete row |
| RouteProperties.SkipsIncompleteRow | routes.py:97-108 | rows ("1","2","Stück") and ("2","","Gramm") keep only the first |

## Left out

- Flask, werkzeug and the templates: routing, `url_for`, cookies and HTML rendering become the `Request`, `Response` and `View` datatypes.
- The session is one client's `"user"` entry. Concurrent clients and session expiry are not modelled.
- Security.GeneratePasswordHash: the digest determines the password; the model does not capture that the hash cannot be inverted.
- Python's `int()` and `float()` are the parameters `toInt` and `isFloat` of `Routes.App.AddRecipe`.
- Models.Db.AddRecipeIngredients: amounts are stored as the submitted text, not as a `Float`. Rounding and float formatting in the JSON are not modelled.
- The storage layer's case-insensitive collation, trailing-space comparison and byte limit of `Text` are not modelled. UNIQUE compares strings exactly, and widths count characters.
- Models.Db.AddRecipeComment: the foreign-key check a store makes on insert is not modelled. A recipe comment under an unknown recipe id is stored, as the handler, which never checks the id, expects. The same holds for Models.Db.AddRecipeIngredients and an unknown ingredient id. Only the delete rules of the foreign keys on `users.id` are modelled.
- Models.Db.DeleteUser: follows the declared delete rules (refuse for recipes, cascade for comments and recipe comments). What the ORM does to the children it has loaded is not modelled. It sets `user_id` to NULL, which the NOT NULL columns refuse.
- The storage layer refuses a value wider than its `String(n)` column, as MySQL does in strict mode. Non-strict mode, which truncates the value instead, is not modelled.
- Routes.ListRecipes, Routes.ApiListRecipes, Routes.LinesJson: `Recipe.query.all()` and `recipe.ingredients` carry no ORDER BY. The model returns rows in primary-key order, which the database does not promise.
- AUTO_INCREMENT counters advance only on a successful insert. Ids the storage layer may use up on a refused insert are not modelled.
- A refused insert leaves the database as it was. A failed commit's effect on the ORM session for the rest of the request is not modelled.
- `created_at` of recipe comments, which the database server sets, is not modelled.
- The exception text appended to the registration storage-failure message and to the API's error objects is not modelled. The replies carry the fixed part only.
- `flask_app.py`, an older standalone variant that nothing imports, is not part of this model, nor are `config.py` and `app.py` (configuration and wiring).
- Ingredients are never inserted by any handler. The ingredient table is given, and its UNIQUE name is kept as an invariant.
