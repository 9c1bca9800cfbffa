/** Properties that relate several handlers of routes.py, stated over the
    functions the handlers are proved against. */
module RouteProperties {
  import opened Tables
  import opened Email
  import opened Security
  import opened Models
  import opened Routes

  // ---------------------------------------------------------------------------
  // Registration and login

  /** Login succeeds exactly for a stored user whose hash accepts the password. */
  lemma LoginAcceptsIff(db: Db, username: string, password: string)
    requires db.Valid()
    ensures LoginAccepts(db, username, password) <==>
              exists u :: u in db.users && u.username == username && CheckPasswordHash(u.passwordHash, password)
  {
    if exists u :: u in db.users && u.username == username && CheckPasswordHash(u.passwordHash, password) {
      var u :| u in db.users && u.username == username && CheckPasswordHash(u.passwordHash, password);
      LookupsFindStoredUser(db, u);
    }
  }

  /** Once every check of the form passes, only the column widths decide
      whether the new user is stored. */
  lemma RegisterStoresIffWithinWidths(db: Db, username: string, email: string, password: string, salt: nat)
    requires RegisterRejection(db, username, email, password).None?
    ensures db.AddUser(username, email, GeneratePasswordHash(password, salt)).Some? <==>
              |username| <= UsernameWidth && |email| <= EmailWidth
  {
  }

  /** After a registration, logging in with the same username succeeds with
      the registered password and with no other. */
  lemma RegisterThenLogin(db: Db, username: string, email: string, password: string, salt: nat, attempt: string)
    requires db.Valid() && RegisterRejection(db, username, email, password).None?
    requires db.AddUser(username, email, GeneratePasswordHash(password, salt)).Some?
    ensures LoginAccepts(db.AddUser(username, email, GeneratePasswordHash(password, salt)).value, username, attempt)
            <==> attempt == password
  {
    AddUserKeepsValid(db, username, email, GeneratePasswordHash(password, salt));
  }

  /** After a registration the same username is refused, whatever the other
      fields, and so is the same email under any other username. */
  lemma SecondRegistrationConflicts(db: Db, username: string, email: string, password: string, salt: nat,
                                    otherName: string, otherEmail: string, otherPassword: string)
    requires db.Valid() && RegisterRejection(db, username, email, password).None?
    requires db.AddUser(username, email, GeneratePasswordHash(password, salt)).Some?
    requires otherPassword != ""
    ensures var d := db.AddUser(username, email, GeneratePasswordHash(password, salt)).value;
            IsValidEmail(otherEmail) ==> RegisterRejection(d, username, otherEmail, otherPassword) == Some(UsernameTaken)
    ensures var d := db.AddUser(username, email, GeneratePasswordHash(password, salt)).value;
            otherName != "" && otherName != username ==>
              RegisterRejection(d, otherName, email, otherPassword) ==
                if exists u :: u in db.users && u.username == otherName then Some(UsernameTaken) else Some(EmailTaken)
  {
    var added := User(db.next.users, username, email, GeneratePasswordHash(password, salt));
    var d := db.AddUser(username, email, GeneratePasswordHash(password, salt)).value;
    assert d.users == db.users + [added];
    assert added in d.users;
    forall u | u in d.users && u.username == otherName && otherName != username ensures u in db.users {
      assert u in db.users || u == added;
    }
  }

  // ---------------------------------------------------------------------------
  // Recipes through the JSON API

  /** The JSON the API gives for a list of new lines, read against the
      ingredient table. */
  function LinesAsJson(db: Db, lines: seq<IngredientLine>): seq<IngredientJson>
    requires forall l :: l in lines ==> db.IngredientById(l.ingredientId).Some?
  {
    seq(|lines|, k requires 0 <= k < |lines| =>
      IngredientJson(db.IngredientById(lines[k].ingredientId).value.name, lines[k].amount, lines[k].unit))
  }

  /** The JSON of freshly stored lines names each line's ingredient and keeps
      its amount and unit, in order. */
  lemma NewLinesJson(d: Db, db: Db, firstId: nat, recipeId: nat, lines: seq<IngredientLine>)
    requires d.ingredients == db.ingredients
    requires forall l :: l in lines ==> db.IngredientById(l.ingredientId).Some?
    ensures LinesJson(d, LineRows(firstId, recipeId, lines)) == Some(LinesAsJson(db, lines))
  {
    var rows := LineRows(firstId, recipeId, lines);
    assert forall id :: d.IngredientById(id) == db.IngredientById(id);
    forall ri | ri in rows ensures d.IngredientById(ri.ingredientId).Some? {
      var k :| 0 <= k < |rows| && rows[k] == ri;
      assert lines[k] in lines;
    }
    var json := LinesJson(d, rows);
    assert json.value == LinesAsJson(db, lines);
  }

  /** A recipe stored the way POST /add_recipe stores it comes back from
      GET /api/recipes/<id> with the same title, instructions, author and
      ingredient lines, in order. */
  lemma RecipeRoundTrip(db: Db, user: User, title: string, instructions: string, lines: seq<IngredientLine>)
    requires db.Valid() && user in db.users
    requires db.AddRecipe(title, instructions, user.id).Some?
    requires db.AddRecipe(title, instructions, user.id).value.AddRecipeIngredients(db.next.recipes, lines).Some?
    requires forall l :: l in lines ==> db.IngredientById(l.ingredientId).Some?
    ensures ApiViewRecipe(db.AddRecipe(title, instructions, user.id).value.AddRecipeIngredients(db.next.recipes, lines).value,
                          db.next.recipes)
            == Json(200, RecipeBody(RecipeJson(db.next.recipes, title, instructions, user.username, LinesAsJson(db, lines))))
  {
    var id := db.next.recipes;
    var created := db.AddRecipe(title, instructions, user.id).value;
    AddRecipeKeepsValid(db, title, instructions, user.id);
    var d := created.AddRecipeIngredients(id, lines).value;
    AddRecipeIngredientsKeepsValid(created, id, lines);
    var recipe := Recipe(id, title, instructions, user.id);
    var rows := LineRows(created.next.recipeIngredients, id, lines);
    assert d.LinesOf(id) == rows;
    assert d.recipes == created.recipes;
    assert d.RecipeById(id) == Some(recipe);
    LookupsFindStoredUser(db, user);
    assert d.users == db.users;
    assert d.UserById(user.id) == Some(user);
    NewLinesJson(d, db, created.next.recipeIngredients, id, lines);
    assert RecipeToJson(d, recipe) == Some(RecipeJson(id, title, instructions, user.username, LinesAsJson(db, lines)));
  }

  /** Two databases that give each recipe of a list the same JSON give the
      list the same JSON. */
  lemma {:induction false} RecipesToJsonAgree(d: Db, db: Db, recipes: seq<Recipe>)
    requires forall x :: x in recipes ==> RecipeToJson(d, x) == RecipeToJson(db, x)
    ensures RecipesToJson(d, recipes) == RecipesToJson(db, recipes)
  {
    if recipes != [] {
      assert recipes[0] in recipes;
      forall x | x in recipes[1..] ensures RecipeToJson(d, x) == RecipeToJson(db, x) {
        assert x in recipes;
      }
      RecipesToJsonAgree(d, db, recipes[1..]);
    }
  }

  /** The ingredient JSON depends on the ingredient table alone. */
  lemma {:induction false} LinesJsonAgree(d: Db, db: Db, lines: seq<RecipeIngredient>)
    requires d.ingredients == db.ingredients
    ensures LinesJson(d, lines) == LinesJson(db, lines)
  {
    if lines != [] {
      assert d.IngredientById(lines[0].ingredientId) == db.IngredientById(lines[0].ingredientId);
      LinesJsonAgree(d, db, lines[1..]);
    }
  }

  /** A delete the store permits leaves every recipe's JSON as it was. */
  lemma DeleteUserKeepsRecipeJson(db: Db, user: User, x: Recipe)
    requires db.DeleteUser(user).Some? && x in db.recipes
    ensures RecipeToJson(db.DeleteUser(user).value, x) == RecipeToJson(db, x)
  {
    var d := db.DeleteUser(user).value;
    assert x.userId != user.id;
    FindByWithout(db.users, UserId, user.id, x.userId);
    assert d.UserById(x.userId) == db.UserById(x.userId);
    assert d.LinesOf(x.id) == db.LinesOf(x.id);
    LinesJsonAgree(d, db, db.LinesOf(x.id));
  }

  /** The store refuses to delete a recipe's author, and a delete it permits
      changes neither API endpoint's answer: no recipe loses its author. */
  lemma DeleteUserKeepsRecipeApi(db: Db, user: User, recipeId: nat)
    requires db.DeleteUser(user).Some?
    ensures ApiViewRecipe(db.DeleteUser(user).value, recipeId) == ApiViewRecipe(db, recipeId)
    ensures ApiListRecipes(db.DeleteUser(user).value) == ApiListRecipes(db)
  {
    var d := db.DeleteUser(user).value;
    forall x | x in db.recipes ensures RecipeToJson(d, x) == RecipeToJson(db, x) {
      DeleteUserKeepsRecipeJson(db, user, x);
    }
    assert d.recipes == db.recipes;
    RecipesToJsonAgree(d, db, db.recipes);
  }

  // ---------------------------------------------------------------------------
  // The ingredient rows of add_recipe

  /** The indices of the complete rows among the first n, in increasing order. */
  function CompleteIndices(ids: seq<string>, amounts: seq<string>, units: seq<string>, n: nat): (r: seq<nat>)
    requires n <= |ids| && n <= |amounts| && n <= |units|
    ensures forall k :: 0 <= k < |r| ==> r[k] < n
    ensures forall i :: 0 <= i < n ==> (i in r <==> Complete(ids, amounts, units, i))
    ensures forall k, l :: 0 <= k < l < |r| ==> r[k] < r[l]
  {
    if n == 0 then []
    else
      CompleteIndices(ids, amounts, units, n - 1)
      + if Complete(ids, amounts, units, n - 1) then [n - 1] else []
  }

  /** The k-th kept line comes from the k-th complete row: one line per
      complete row, in row order, nothing from an incomplete one. */
  lemma {:induction false} KeptFollowsCompleteIndices(ids: seq<string>, amounts: seq<string>, units: seq<string>,
                                                      toInt: string -> Option<int>, n: nat)
    requires n <= |ids| && n <= |amounts| && n <= |units|
    requires forall i :: 0 <= i < n && Complete(ids, amounts, units, i) ==> toInt(ids[i]).Some?
    ensures |Kept(ids, amounts, units, toInt, n)| == |CompleteIndices(ids, amounts, units, n)|
    ensures forall k :: 0 <= k < |CompleteIndices(ids, amounts, units, n)| ==>
              var i := CompleteIndices(ids, amounts, units, n)[k];
              Kept(ids, amounts, units, toInt, n)[k] == IngredientLine(toInt(ids[i]).value, amounts[i], units[i])
  {
    if n > 0 {
      KeptFollowsCompleteIndices(ids, amounts, units, toInt, n - 1);
    }
  }

  /** When the three lists line up and every complete row converts, the loop
      keeps exactly the complete rows. */
  lemma CollectsCompleteRows(ids: seq<string>, amounts: seq<string>, units: seq<string>,
                             toInt: string -> Option<int>, isFloat: string -> bool)
    requires |amounts| == |ids| && |units| == |ids|
    requires forall i :: 0 <= i < |ids| && Complete(ids, amounts, units, i) ==> toInt(ids[i]).Some? && isFloat(amounts[i])
    ensures IngredientLines(ids, amounts, units, toInt, isFloat) == Some(Kept(ids, amounts, units, toInt, |ids|))
    ensures |Kept(ids, amounts, units, toInt, |ids|)| == |CompleteIndices(ids, amounts, units, |ids|)|
  {
    KeptFollowsCompleteIndices(ids, amounts, units, toInt, |ids|);
  }

  /** Two rows, the second without an amount: only the first is kept. */
  lemma SkipsIncompleteRow(toInt: string -> Option<int>, isFloat: string -> bool)
    requires toInt("1") == Some(1) && isFloat("2")
    ensures IngredientLines(["1", "2"], ["2", ""], ["St\U{FC}ck", "Gramm"], toInt, isFloat)
            == Some([IngredientLine(1, "2", "St\U{FC}ck")])
  {
    var ids, amounts, units := ["1", "2"], ["2", ""], ["St\U{FC}ck", "Gramm"];
    assert Complete(ids, amounts, units, 0) && !Complete(ids, amounts, units, 1);
    assert Kept(ids, amounts, units, toInt, 0) == [];
    assert Kept(ids, amounts, units, toInt, 1) == [IngredientLine(1, "2", "St\U{FC}ck")];
    assert Kept(ids, amounts, units, toInt, 2) == Kept(ids, amounts, units, toInt, 1);
    assert forall i :: 0 <= i < 2 && Complete(ids, amounts, units, i) ==> i == 0;
  }
}
