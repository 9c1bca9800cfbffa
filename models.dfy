/** The six tables of models.py as one database value. Each table is a
    sequence of rows in primary-key order; `next` holds the AUTO_INCREMENT
    counters. The storage layer refuses a commit whose values are wider than
    their `String(n)` column or that repeats a UNIQUE value. Foreign keys are
    not checked on insert; deleting a user follows their declared delete
    rules. */
module Models {
  import opened Tables
  import opened Security

  // Column widths declared in models.py.
  const UsernameWidth := 100
  const EmailWidth := 150
  const IngredientNameWidth := 100
  const TitleWidth := 200
  const UnitWidth := 50
  const ContentWidth := 4096

  datatype User = User(id: nat, username: string, email: string, passwordHash: PasswordHash)
  datatype Comment = Comment(id: nat, content: string, userId: nat)
  datatype Ingredient = Ingredient(id: nat, name: string)
  datatype Recipe = Recipe(id: nat, title: string, instructions: string, userId: nat)
  /** `amount` is kept as the text the form submitted; `ingredientId` is
      whatever `int(...)` made of the form value. */
  datatype RecipeIngredient = RecipeIngredient(id: nat, recipeId: nat, ingredientId: int, amount: string, unit: string)
  datatype RecipeComment = RecipeComment(id: nat, content: string, userId: nat, recipeId: nat)

  /** A `RecipeIngredient` before the database has given it an id and a recipe. */
  datatype IngredientLine = IngredientLine(ingredientId: int, amount: string, unit: string)

  // Columns, as key functions for the generic queries of Tables.
  function UserId(u: User): int { u.id }
  function UserName(u: User): string { u.username }
  function UserEmail(u: User): string { u.email }
  function CommentId(c: Comment): int { c.id }
  function CommentAuthor(c: Comment): int { c.userId }
  function IngredientId(i: Ingredient): int { i.id }
  function IngredientName(i: Ingredient): string { i.name }
  function RecipeId(r: Recipe): int { r.id }
  function LineId(ri: RecipeIngredient): int { ri.id }
  function LineRecipe(ri: RecipeIngredient): int { ri.recipeId }
  function RecipeCommentId(rc: RecipeComment): int { rc.id }
  function RecipeCommentAuthor(rc: RecipeComment): int { rc.userId }

  /** The rows a batch of ingredient lines becomes: consecutive ids from `firstId`. */
  function LineRows(firstId: nat, recipeId: nat, lines: seq<IngredientLine>): seq<RecipeIngredient> {
    seq(|lines|, k requires 0 <= k < |lines| =>
      RecipeIngredient(firstId + k, recipeId, lines[k].ingredientId, lines[k].amount, lines[k].unit))
  }

  datatype Counters = Counters(
    users: nat, comments: nat, ingredients: nat, recipes: nat,
    recipeIngredients: nat, recipeComments: nat)

  datatype Db = Db(
    users: seq<User>,
    comments: seq<Comment>,
    ingredients: seq<Ingredient>,
    recipes: seq<Recipe>,
    recipeIngredients: seq<RecipeIngredient>,
    recipeComments: seq<RecipeComment>,
    next: Counters)
  {
    /** Primary keys grow along each table and stay below the table's counter. */
    ghost predicate KeysAllocated() {
      && Increasing(users, UserId) && Below(users, UserId, next.users)
      && Increasing(comments, CommentId) && Below(comments, CommentId, next.comments)
      && Increasing(ingredients, IngredientId) && Below(ingredients, IngredientId, next.ingredients)
      && Increasing(recipes, RecipeId) && Below(recipes, RecipeId, next.recipes)
      && Increasing(recipeIngredients, LineId) && Below(recipeIngredients, LineId, next.recipeIngredients)
      && Increasing(recipeComments, RecipeCommentId) && Below(recipeComments, RecipeCommentId, next.recipeComments)
    }

    /** Every stored string fits its column. */
    ghost predicate WithinWidths() {
      && (forall u :: u in users ==> |u.username| <= UsernameWidth && |u.email| <= EmailWidth)
      && (forall c :: c in comments ==> |c.content| <= ContentWidth)
      && (forall i :: i in ingredients ==> |i.name| <= IngredientNameWidth)
      && (forall r :: r in recipes ==> |r.title| <= TitleWidth)
      && (forall ri :: ri in recipeIngredients ==> |ri.unit| <= UnitWidth)
      && (forall rc :: rc in recipeComments ==> |rc.content| <= ContentWidth)
    }

    /** users.username, users.email and ingredients.name are UNIQUE. */
    ghost predicate UniqueColumns() {
      Distinct(users, UserName) && Distinct(users, UserEmail) && Distinct(ingredients, IngredientName)
    }

    /** Ingredient lines are written only for a recipe just created, and
        recipes are never deleted. */
    ghost predicate LinesHaveRecipes() {
      forall ri :: ri in recipeIngredients ==> exists r :: r in recipes && r.id == ri.recipeId
    }

    ghost predicate Valid() {
      KeysAllocated() && WithinWidths() && UniqueColumns() && LinesHaveRecipes()
    }

    /** `User.query.filter_by(username=name).first()` */
    function UserNamed(name: string): (r: Option<User>)
      ensures r.Some? ==> r.value in users && r.value.username == name
      ensures r.None? <==> forall u :: u in users ==> u.username != name
    {
      FindBy(users, UserName, name)
    }

    /** `User.query.filter_by(email=email).first()` */
    function UserWithEmail(email: string): (r: Option<User>)
      ensures r.Some? ==> r.value in users && r.value.email == email
      ensures r.None? <==> forall u :: u in users ==> u.email != email
    {
      FindBy(users, UserEmail, email)
    }

    /** The user a foreign key points to (`recipe.user`). */
    function UserById(id: int): (r: Option<User>)
      ensures r.Some? ==> r.value in users && r.value.id == id
      ensures r.None? <==> forall u :: u in users ==> u.id != id
    {
      FindBy(users, UserId, id)
    }

    /** `Recipe.query.get(id)` */
    function RecipeById(id: int): (r: Option<Recipe>)
      ensures r.Some? ==> r.value in recipes && r.value.id == id
      ensures r.None? <==> forall x :: x in recipes ==> x.id != id
    {
      FindBy(recipes, RecipeId, id)
    }

    /** The ingredient a line points to (`ri.ingredient`). */
    function IngredientById(id: int): (r: Option<Ingredient>)
      ensures r.Some? ==> r.value in ingredients && r.value.id == id
      ensures r.None? <==> forall i :: i in ingredients ==> i.id != id
    {
      FindBy(ingredients, IngredientId, id)
    }

    /** `RecipeIngredient.query.filter_by(recipe_id=id).all()`, also what
        `recipe.ingredients` loads. */
    function LinesOf(recipeId: int): (r: seq<RecipeIngredient>)
      ensures forall ri :: ri in r <==> ri in recipeIngredients && ri.recipeId == recipeId
    {
      Where(recipeIngredients, LineRecipe, recipeId)
    }

    /** Commit of a new `User`: refused when a value is wider than its column
        or when the username or e-mail is already stored. */
    function AddUser(username: string, email: string, hash: PasswordHash): (r: Option<Db>)
      ensures r.Some? <==>
                && |username| <= UsernameWidth && |email| <= EmailWidth
                && (forall u :: u in users ==> u.username != username && u.email != email)
      ensures r.Some? ==> r.value.users == users + [User(next.users, username, email, hash)]
      ensures r.Some? ==> r.value.(users := users, next := next) == this
      ensures r.Some? ==> r.value.next == next.(users := next.users + 1)
    {
      if |username| > UsernameWidth || |email| > EmailWidth
         || UserNamed(username).Some? || UserWithEmail(email).Some?
      then None
      else Some(this.(users := users + [User(next.users, username, email, hash)],
                      next := next.(users := next.users + 1)))
    }

    /** Commit of a new `Comment`: refused when the content is too wide. */
    function AddComment(content: string, userId: nat): (r: Option<Db>)
      ensures r.Some? <==> |content| <= ContentWidth
      ensures r.Some? ==> r.value.comments == comments + [Comment(next.comments, content, userId)]
      ensures r.Some? ==> r.value.(comments := comments, next := next) == this
      ensures r.Some? ==> r.value.next == next.(comments := next.comments + 1)
    {
      if |content| > ContentWidth then None
      else Some(this.(comments := comments + [Comment(next.comments, content, userId)],
                      next := next.(comments := next.comments + 1)))
    }

    /** Commit of a new `Recipe`; its id is `next.recipes`. Refused when the
        title is too wide. */
    function AddRecipe(title: string, instructions: string, userId: nat): (r: Option<Db>)
      ensures r.Some? <==> |title| <= TitleWidth
      ensures r.Some? ==> r.value.recipes == recipes + [Recipe(next.recipes, title, instructions, userId)]
      ensures r.Some? ==> r.value.(recipes := recipes, next := next) == this
      ensures r.Some? ==> r.value.next == next.(recipes := next.recipes + 1)
    {
      if |title| > TitleWidth then None
      else Some(this.(recipes := recipes + [Recipe(next.recipes, title, instructions, userId)],
                      next := next.(recipes := next.recipes + 1)))
    }

    /** One commit of a batch of `RecipeIngredient` rows for a recipe: all of
        them, or none when some unit is too wide. */
    function AddRecipeIngredients(recipeId: nat, lines: seq<IngredientLine>): (r: Option<Db>)
      ensures r.Some? <==> forall l :: l in lines ==> |l.unit| <= UnitWidth
      ensures r.Some? ==> r.value.recipeIngredients ==
                            recipeIngredients + LineRows(next.recipeIngredients, recipeId, lines)
      ensures r.Some? ==> r.value.(recipeIngredients := recipeIngredients, next := next) == this
      ensures r.Some? ==> r.value.next == next.(recipeIngredients := next.recipeIngredients + |lines|)
    {
      if exists l :: l in lines && |l.unit| > UnitWidth then None
      else Some(this.(recipeIngredients := recipeIngredients + LineRows(next.recipeIngredients, recipeId, lines),
                      next := next.(recipeIngredients := next.recipeIngredients + |lines|)))
    }

    /** Commit of a new `RecipeComment`; the recipe id is not checked. Refused
        when the content is too wide. */
    function AddRecipeComment(content: string, userId: nat, recipeId: nat): (r: Option<Db>)
      ensures r.Some? <==> |content| <= ContentWidth
      ensures r.Some? ==> r.value.recipeComments ==
                            recipeComments + [RecipeComment(next.recipeComments, content, userId, recipeId)]
      ensures r.Some? ==> r.value.(recipeComments := recipeComments, next := next) == this
      ensures r.Some? ==> r.value.next == next.(recipeComments := next.recipeComments + 1)
    {
      if |content| > ContentWidth then None
      else Some(this.(recipeComments := recipeComments + [RecipeComment(next.recipeComments, content, userId, recipeId)],
                      next := next.(recipeComments := next.recipeComments + 1)))
    }

    /** Deleting a user row under the foreign keys the schema declares:
        recipes.user_id has no ON DELETE rule, so the delete is refused
        (RESTRICT) while the user owns a recipe; otherwise comments.user_id
        and recipe_comments.user_id cascade (ON DELETE CASCADE). */
    function DeleteUser(user: User): (r: Option<Db>)
      ensures r.None? <==> exists x :: x in recipes && x.userId == user.id
      ensures r.Some? ==> forall u :: u in r.value.users <==> u in users && u.id != user.id
      ensures r.Some? ==> forall c :: c in r.value.comments <==> c in comments && c.userId != user.id
      ensures r.Some? ==> forall rc :: rc in r.value.recipeComments <==> rc in recipeComments && rc.userId != user.id
      ensures r.Some? ==> r.value.(users := users, comments := comments, recipeComments := recipeComments) == this
    {
      if exists x :: x in recipes && x.userId == user.id then None
      else
        Some(this.(users := Without(users, UserId, user.id),
                   comments := Without(comments, CommentAuthor, user.id),
                   recipeComments := Without(recipeComments, RecipeCommentAuthor, user.id)))
    }
  }

  /** A database with no rows, every counter at 1 (AUTO_INCREMENT's start). */
  function EmptyDb(): (d: Db)
    ensures d.Valid()
  {
    Db([], [], [], [], [], [], Counters(1, 1, 1, 1, 1, 1))
  }

  /** `Comment.query.order_by(Comment.id.desc()).all()` on a table kept in id order. */
  function NewestFirst(cs: seq<Comment>): (r: seq<Comment>)
    ensures |r| == |cs|
  {
    if cs == [] then [] else [cs[|cs| - 1]] + NewestFirst(cs[..|cs| - 1])
  }

  /** The feed holds every comment exactly once. */
  lemma {:induction false} NewestFirstPermutes(cs: seq<Comment>)
    ensures multiset(NewestFirst(cs)) == multiset(cs)
  {
    if cs != [] {
      NewestFirstPermutes(cs[..|cs| - 1]);
      assert cs == cs[..|cs| - 1] + [cs[|cs| - 1]];
    }
  }

  /** On a table kept in id order the feed is the table sorted by strictly
      descending id, every comment exactly once. */
  lemma {:induction false} NewestFirstSorted(cs: seq<Comment>)
    requires Increasing(cs, CommentId)
    ensures multiset(NewestFirst(cs)) == multiset(cs)
    ensures forall i, j :: 0 <= i < j < |cs| ==> NewestFirst(cs)[i].id > NewestFirst(cs)[j].id
  {
    NewestFirstPermutes(cs);
    if cs != [] {
      var init, last := cs[..|cs| - 1], cs[|cs| - 1];
      assert Increasing(init, CommentId) by {
        forall i, j | 0 <= i < j < |init| ensures init[i].id < init[j].id {
          assert init[i] == cs[i] && init[j] == cs[j];
        }
      }
      NewestFirstSorted(init);
      var r, t := NewestFirst(cs), NewestFirst(init);
      assert r == [last] + t;
      forall j | 0 <= j < |t| ensures last.id > t[j].id {
        assert t[j] in multiset(init);
        var k :| 0 <= k < |init| && init[k] == t[j];
        assert cs[k] == t[j];
      }
      forall i, j | 0 <= i < j < |r| ensures r[i].id > r[j].id {
        if i == 0 {
          assert r[j] == t[j - 1];
        } else {
          assert r[i] == t[i - 1] && r[j] == t[j - 1];
        }
      }
    }
  }

  /** On a valid database each lookup by a UNIQUE column or a key finds the
      one row holding that value. */
  lemma LookupsFindStoredUser(db: Db, u: User)
    requires db.Valid() && u in db.users
    ensures db.UserNamed(u.username) == Some(u)
    ensures db.UserWithEmail(u.email) == Some(u)
    ensures db.UserById(u.id) == Some(u)
  {
    FindByDistinct(db.users, UserName, u);
    FindByDistinct(db.users, UserEmail, u);
    IncreasingIsDistinct(db.users, UserId);
    FindByDistinct(db.users, UserId, u);
  }

  lemma RecipeByIdFindsStored(db: Db, r: Recipe)
    requires db.Valid() && r in db.recipes
    ensures db.RecipeById(r.id) == Some(r)
  {
    IncreasingIsDistinct(db.recipes, RecipeId);
    FindByDistinct(db.recipes, RecipeId, r);
  }

  /** A stored user keeps the invariant, gets a fresh id, and is the one
      row the username and e-mail lookups return. */
  lemma AddUserKeepsValid(db: Db, username: string, email: string, hash: PasswordHash)
    requires db.Valid() && db.AddUser(username, email, hash).Some?
    ensures db.AddUser(username, email, hash).value.Valid()
    ensures forall u :: u in db.users ==> u.id < db.next.users
    ensures db.AddUser(username, email, hash).value.UserNamed(username) == Some(User(db.next.users, username, email, hash))
    ensures db.AddUser(username, email, hash).value.UserWithEmail(email) == Some(User(db.next.users, username, email, hash))
  {
    var d := db.AddUser(username, email, hash).value;
    var u := User(db.next.users, username, email, hash);
    IncreasingAppend(db.users, u, UserId, db.next.users);
    assert Distinct(d.users, UserName) by {
      forall i, j | 0 <= i < j < |d.users| ensures d.users[i].username != d.users[j].username {
        assert d.users[i] == db.users[i] && d.users[i] in db.users;
        if j < |db.users| {
          assert d.users[j] == db.users[j];
        }
      }
    }
    assert Distinct(d.users, UserEmail) by {
      forall i, j | 0 <= i < j < |d.users| ensures d.users[i].email != d.users[j].email {
        assert d.users[i] == db.users[i] && d.users[i] in db.users;
        if j < |db.users| {
          assert d.users[j] == db.users[j];
        }
      }
    }
    assert d.Valid();
    LookupsFindStoredUser(d, u);
  }

  /** A stored comment keeps the invariant and heads the newest-first feed. */
  lemma AddCommentKeepsValid(db: Db, content: string, userId: nat)
    requires db.Valid() && db.AddComment(content, userId).Some?
    ensures db.AddComment(content, userId).value.Valid()
    ensures NewestFirst(db.AddComment(content, userId).value.comments)[0] == Comment(db.next.comments, content, userId)
    ensures forall c :: c in db.comments ==> c.id < db.next.comments
  {
    var d := db.AddComment(content, userId).value;
    IncreasingAppend(db.comments, Comment(db.next.comments, content, userId), CommentId, db.next.comments);
    assert d.Valid();
  }

  /** A stored recipe keeps the invariant, is what `Recipe.query.get` returns
      for its fresh id, and has no ingredient lines yet. */
  lemma AddRecipeKeepsValid(db: Db, title: string, instructions: string, userId: nat)
    requires db.Valid() && db.AddRecipe(title, instructions, userId).Some?
    ensures db.AddRecipe(title, instructions, userId).value.Valid()
    ensures db.AddRecipe(title, instructions, userId).value.RecipeById(db.next.recipes)
            == Some(Recipe(db.next.recipes, title, instructions, userId))
    ensures db.AddRecipe(title, instructions, userId).value.LinesOf(db.next.recipes) == []
  {
    var d := db.AddRecipe(title, instructions, userId).value;
    var r := Recipe(db.next.recipes, title, instructions, userId);
    IncreasingAppend(db.recipes, r, RecipeId, db.next.recipes);
    assert d.LinesHaveRecipes() by {
      forall ri | ri in d.recipeIngredients ensures exists x :: x in d.recipes && x.id == ri.recipeId {
        var x :| x in db.recipes && x.id == ri.recipeId;
        assert x in d.recipes;
      }
    }
    assert d.Valid();
    RecipeByIdFindsStored(d, r);
    forall ri | ri in d.recipeIngredients ensures ri.recipeId != db.next.recipes {
      var x :| x in db.recipes && x.id == ri.recipeId;
      assert RecipeId(x) < db.next.recipes;
    }
    WhereNone(d.recipeIngredients, LineRecipe, db.next.recipes);
  }

  /** A stored batch of lines for an existing recipe keeps the invariant and
      extends that recipe's lines by exactly the batch, in order. */
  lemma AddRecipeIngredientsKeepsValid(db: Db, recipeId: nat, lines: seq<IngredientLine>)
    requires db.Valid() && db.RecipeById(recipeId).Some?
    requires db.AddRecipeIngredients(recipeId, lines).Some?
    ensures db.AddRecipeIngredients(recipeId, lines).value.Valid()
    ensures db.AddRecipeIngredients(recipeId, lines).value.LinesOf(recipeId)
            == db.LinesOf(recipeId) + LineRows(db.next.recipeIngredients, recipeId, lines)
  {
    var d := db.AddRecipeIngredients(recipeId, lines).value;
    var rows := LineRows(db.next.recipeIngredients, recipeId, lines);
    IncreasingAppendRun(db.recipeIngredients, rows, LineId, db.next.recipeIngredients);
    forall ri | ri in rows ensures |ri.unit| <= UnitWidth && exists x :: x in d.recipes && x.id == ri.recipeId {
      var k :| 0 <= k < |rows| && rows[k] == ri;
      assert lines[k] in lines;
      assert db.RecipeById(recipeId).value in d.recipes;
    }
    assert d.Valid();
    WhereAppend(db.recipeIngredients, rows, LineRecipe, recipeId);
    WhereAll(rows, LineRecipe, recipeId);
  }

  lemma AddRecipeCommentKeepsValid(db: Db, content: string, userId: nat, recipeId: nat)
    requires db.Valid() && db.AddRecipeComment(content, userId, recipeId).Some?
    ensures db.AddRecipeComment(content, userId, recipeId).value.Valid()
  {
    var d := db.AddRecipeComment(content, userId, recipeId).value;
    IncreasingAppend(db.recipeComments, RecipeComment(db.next.recipeComments, content, userId, recipeId),
                     RecipeCommentId, db.next.recipeComments);
    assert d.Valid();
  }

  /** A permitted delete keeps the invariant, and afterwards neither the
      username nor the e-mail is found, nor any comment by that user. */
  lemma DeleteUserKeepsValid(db: Db, user: User)
    requires db.Valid() && user in db.users && db.DeleteUser(user).Some?
    ensures db.DeleteUser(user).value.Valid()
    ensures db.DeleteUser(user).value.UserNamed(user.username).None?
    ensures db.DeleteUser(user).value.UserWithEmail(user.email).None?
    ensures forall c :: c in db.DeleteUser(user).value.comments ==> c.userId != user.id
  {
    var d := db.DeleteUser(user).value;
    WithoutIncreasing(db.users, UserId, user.id, UserId);
    WithoutIncreasing(db.comments, CommentAuthor, user.id, CommentId);
    WithoutIncreasing(db.recipeComments, RecipeCommentAuthor, user.id, RecipeCommentId);
    WithoutDistinct(db.users, UserId, user.id, UserName);
    WithoutDistinct(db.users, UserId, user.id, UserEmail);
    assert d.Valid();
    forall u | u in d.users ensures u.username != user.username && u.email != user.email {
      DistinctKeysDiffer(db.users, UserName, u, user);
      DistinctKeysDiffer(db.users, UserEmail, u, user);
    }
  }
}
