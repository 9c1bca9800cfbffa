/** The request handlers of routes.py. The database is a `Db` value and the
    session is the one entry the handlers use, `session["user"]`. Page
    rendering, redirects and JSON encoding are replaced by the `Response`
    datatype. */
module Routes {
  import opened Tables
  import opened Email
  import opened Security
  import opened Models

  /** A submitted form: every field name with the values sent under it. */
  type Form = map<string, seq<string>>

  datatype Request = Get | Post(form: Form)

  /** `request.form[name]` (None: Flask answers 400) and `request.form.get(name)`
      (None: the field is missing). */
  function Field(form: Form, name: string): Option<string> {
    if name in form && |form[name]| > 0 then Some(form[name][0]) else None
  }

  /** `request.form.getlist(name)` */
  function FieldList(form: Form, name: string): seq<string> {
    if name in form then form[name] else []
  }

  datatype Page = LoginPage | IndexPage | RecipePage(recipeId: nat)

  /** The plain-text bodies the page handlers answer with. */
  datatype Message =
    | FieldsMissing | InvalidEmail | UsernameTaken | EmailTaken | StorageFailure
    | WrongCredentials | NotAuthorized | UserNotFound | RecipeNotFound | EmptyComment

  function MessageText(m: Message): string {
    match m
    case FieldsMissing => "Fehler: Alle Felder m\U{FC}ssen ausgef\U{FC}llt werden!"
    case InvalidEmail => "Fehler: Ung\U{FC}ltige E-Mail-Adresse!"
    case UsernameTaken => "Fehler: Benutzername existiert bereits!"
    case EmailTaken => "Fehler: E-Mail-Adresse wird bereits verwendet!"
    case StorageFailure => "Fehler beim Speichern in der Datenbank: "
    case WrongCredentials => "Falscher Benutzername oder Passwort!"
    case NotAuthorized => "Nicht autorisiert!"
    case UserNotFound => "Benutzer nicht gefunden!"
    case RecipeNotFound => "Rezept nicht gefunden!"
    case EmptyComment => "Fehler: Kommentar darf nicht leer sein!"
  }

  /** The templates and what each is given. */
  datatype View =
    | MainPage(comments: seq<Comment>, username: string)
    | RegisterForm
    | LoginForm
    | AddRecipeForm(ingredients: seq<Ingredient>, units: seq<string>)
    | RecipeList(recipes: seq<Recipe>)
    | RecipeDetail(recipe: Recipe, lines: seq<RecipeIngredient>)

  datatype IngredientJson = IngredientJson(name: string, amount: string, unit: string)
  datatype RecipeJson = RecipeJson(id: nat, title: string, instructions: string, user: string,
                                   ingredients: seq<IngredientJson>)
  datatype JsonBody = RecipeBody(recipe: RecipeJson) | RecipesBody(recipes: seq<RecipeJson>) | NotFoundBody | FailureBody

  datatype Response =
    | Redirect(to: Page)
    | Text(message: Message)
    | Render(view: View)
    | Json(status: nat, body: JsonBody)
    | BadRequest           // 400: a field read with `request.form[...]` is missing
    | InternalServerError  // 500: an exception the handler does not catch; uncommitted rows are dropped

  /** The unit suggestions offered by the add-recipe form. */
  const Units: seq<string> :=
    ["St\U{FC}ck", "Gramm", "Kilogramm", "L\U{F6}ffel", "Teel\U{F6}ffel", "Prise", "Liter", "dl", "ml"]

  /** Who is asking, as the protected handlers see it. */
  datatype Visitor = Anonymous | Stale | Member(user: User)

  /** `"user" in session` and then the row for the stored username; a stored
      username without a row is a stale session. */
  function Visit(db: Db, session: Option<string>): (v: Visitor)
    ensures v.Anonymous? <==> session.None?
    ensures v.Stale? <==> session.Some? && forall u :: u in db.users ==> u.username != session.value
    ensures v.Member? ==> session == Some(v.user.username) && v.user in db.users
  {
    match session
    case None => Anonymous
    case Some(name) =>
      match db.UserNamed(name)
      case None => Stale
      case Some(u) => Member(u)
  }

  // ---------------------------------------------------------------------------
  // Registration and login

  /** The checks of POST /register, in the handler's order; None when every
      check passes. */
  function RegisterRejection(db: Db, username: string, email: string, password: string): (r: Option<Message>)
    ensures r == Some(FieldsMissing) <==> username == "" || email == "" || password == ""
    ensures r == Some(InvalidEmail) <==>
              username != "" && email != "" && password != "" && !IsValidEmail(email)
    ensures r == Some(UsernameTaken) <==>
              username != "" && email != "" && password != "" && IsValidEmail(email)
              && exists u :: u in db.users && u.username == username
    ensures r == Some(EmailTaken) <==>
              username != "" && email != "" && password != "" && IsValidEmail(email)
              && (forall u :: u in db.users ==> u.username != username)
              && exists u :: u in db.users && u.email == email
    ensures r.None? <==>
              username != "" && email != "" && password != "" && IsValidEmail(email)
              && forall u :: u in db.users ==> u.username != username && u.email != email
  {
    if username == "" || email == "" || password == "" then Some(FieldsMissing)
    else if !IsValidEmail(email) then Some(InvalidEmail)
    else
      var existingUser := db.UserNamed(username);
      var existingEmail := db.UserWithEmail(email);
      if existingUser.Some? then Some(UsernameTaken)
      else if existingEmail.Some? then Some(EmailTaken)
      else None
  }

  /** POST /login stores the username exactly when this holds. */
  function LoginAccepts(db: Db, username: string, password: string): (ok: bool)
    ensures ok ==> exists u :: u in db.users && u.username == username && CheckPasswordHash(u.passwordHash, password)
    ensures (forall u :: u in db.users ==> u.username != username) ==> !ok
  {
    match db.UserNamed(username)
    case None => false
    case Some(u) => CheckPasswordHash(u.passwordHash, password)
  }

  // ---------------------------------------------------------------------------
  // Read-only handlers

  /** GET /recipes: only the presence of a session is checked. */
  function ListRecipes(db: Db, session: Option<string>): (r: Response)
    ensures session.None? ==> r == Redirect(LoginPage)
    ensures session.Some? ==> r == Render(RecipeList(db.recipes))
  {
    if session.None? then Redirect(LoginPage) else Render(RecipeList(db.recipes))
  }

  /** GET /recipe/<id>: only the presence of a session is checked. */
  function ViewRecipe(db: Db, session: Option<string>, recipeId: nat): (r: Response)
    ensures session.None? ==> r == Redirect(LoginPage)
    ensures session.Some? ==> (r == Text(RecipeNotFound) <==> forall x :: x in db.recipes ==> x.id != recipeId)
    ensures session.Some? ==> (r.Render? <==> exists x :: x in db.recipes && x.id == recipeId)
    ensures r.Text? ==> r == Text(RecipeNotFound)
    ensures r.Render? ==> r.view.RecipeDetail? && r.view.recipe in db.recipes && r.view.recipe.id == recipeId
    ensures r.Render? ==> forall ri :: ri in r.view.lines <==> ri in db.recipeIngredients && ri.recipeId == recipeId
  {
    if session.None? then Redirect(LoginPage)
    else
      match db.RecipeById(recipeId)
      case None => Text(RecipeNotFound)
      case Some(recipe) => Render(RecipeDetail(recipe, db.LinesOf(recipe.id)))
  }

  /** The `ingredients` list of a recipe's JSON; None where `ri.ingredient`
      is missing and reading its name raises. */
  function LinesJson(db: Db, lines: seq<RecipeIngredient>): (r: Option<seq<IngredientJson>>)
    ensures r.Some? <==> forall ri :: ri in lines ==> db.IngredientById(ri.ingredientId).Some?
    ensures r.Some? ==> |r.value| == |lines|
    ensures r.Some? ==> forall k :: 0 <= k < |lines| ==>
              r.value[k] == IngredientJson(db.IngredientById(lines[k].ingredientId).value.name,
                                           lines[k].amount, lines[k].unit)
  {
    if lines == [] then Some([])
    else
      match db.IngredientById(lines[0].ingredientId)
      case None => None
      case Some(ingredient) =>
        match LinesJson(db, lines[1..])
        case None => None
        case Some(rest) => Some([IngredientJson(ingredient.name, lines[0].amount, lines[0].unit)] + rest)
  }

  /** A recipe's JSON object; None where `recipe.user` or an ingredient is
      missing and the comprehension raises. */
  function RecipeToJson(db: Db, recipe: Recipe): (r: Option<RecipeJson>)
    ensures r.Some? <==> db.UserById(recipe.userId).Some? && LinesJson(db, db.LinesOf(recipe.id)).Some?
    ensures r.Some? ==> r.value.id == recipe.id && r.value.title == recipe.title
                        && r.value.instructions == recipe.instructions
    ensures r.Some? ==> r.value.user == db.UserById(recipe.userId).value.username
                        && Some(r.value.ingredients) == LinesJson(db, db.LinesOf(recipe.id))
  {
    match db.UserById(recipe.userId)
    case None => None
    case Some(owner) =>
      match LinesJson(db, db.LinesOf(recipe.id))
      case None => None
      case Some(ingredients) => Some(RecipeJson(recipe.id, recipe.title, recipe.instructions, owner.username, ingredients))
  }

  function RecipesToJson(db: Db, recipes: seq<Recipe>): (r: Option<seq<RecipeJson>>)
    ensures r.Some? <==> forall x :: x in recipes ==> RecipeToJson(db, x).Some?
    ensures r.Some? ==> |r.value| == |recipes|
    ensures r.Some? ==> forall k :: 0 <= k < |recipes| ==> RecipeToJson(db, recipes[k]) == Some(r.value[k])
  {
    if recipes == [] then Some([])
    else
      match RecipeToJson(db, recipes[0])
      case None => None
      case Some(first) =>
        match RecipesToJson(db, recipes[1..])
        case None => None
        case Some(rest) => Some([first] + rest)
  }

  /** GET /api/recipes: no session check; any failure while building the
      list answers 500. */
  function ApiListRecipes(db: Db): (r: Response)
    ensures r.Json? && (r.status == 200 || r.status == 500)
    ensures r.status == 200 <==> forall x :: x in db.recipes ==> RecipeToJson(db, x).Some?
    ensures r.status == 200 ==> r.body.RecipesBody? && |r.body.recipes| == |db.recipes|
    ensures r.status == 200 ==> forall k :: 0 <= k < |db.recipes| ==>
              RecipeToJson(db, db.recipes[k]) == Some(r.body.recipes[k])
  {
    match RecipesToJson(db, db.recipes)
    case None => Json(500, FailureBody)
    case Some(all) => Json(200, RecipesBody(all))
  }

  /** GET /api/recipes/<id>: no session check; 404 for an unknown id, 500
      when the recipe's user or an ingredient is missing. */
  function ApiViewRecipe(db: Db, recipeId: nat): (r: Response)
    ensures r.Json? && (r.status == 200 || r.status == 404 || r.status == 500)
    ensures r.status == 404 <==> forall x :: x in db.recipes ==> x.id != recipeId
    ensures r.status == 404 ==> r.body == NotFoundBody
    ensures r.status == 500 <==> db.RecipeById(recipeId).Some? && RecipeToJson(db, db.RecipeById(recipeId).value).None?
    ensures r.status == 500 ==> r.body == FailureBody
    ensures r.status == 200 ==> r.body.RecipeBody? && r.body.recipe.id == recipeId
    ensures r.status == 200 ==> exists x :: x in db.recipes && x.id == recipeId && RecipeToJson(db, x) == Some(r.body.recipe)
  {
    match db.RecipeById(recipeId)
    case None => Json(404, NotFoundBody)
    case Some(recipe) =>
      match RecipeToJson(db, recipe)
      case None => Json(500, FailureBody)
      case Some(body) => Json(200, RecipeBody(body))
  }

  // ---------------------------------------------------------------------------
  // The ingredient rows of POST /add_recipe

  /** Row i of the three lists is complete: all three values are non-empty. */
  predicate Complete(ids: seq<string>, amounts: seq<string>, units: seq<string>, i: nat)
    requires i < |ids| && i < |amounts| && i < |units|
  {
    ids[i] != "" && amounts[i] != "" && units[i] != ""
  }

  /** The lines the first n rows yield: each complete row converted, in order. */
  function Kept(ids: seq<string>, amounts: seq<string>, units: seq<string>, toInt: string -> Option<int>, n: nat)
    : (r: seq<IngredientLine>)
    requires n <= |ids| && n <= |amounts| && n <= |units|
    requires forall i :: 0 <= i < n && Complete(ids, amounts, units, i) ==> toInt(ids[i]).Some?
    ensures |r| <= n
    ensures forall l :: l in r ==> exists i :: 0 <= i < n && Complete(ids, amounts, units, i)
                                               && l == IngredientLine(toInt(ids[i]).value, amounts[i], units[i])
  {
    if n == 0 then []
    else
      Kept(ids, amounts, units, toInt, n - 1)
      + if Complete(ids, amounts, units, n - 1)
        then [IngredientLine(toInt(ids[n - 1]).value, amounts[n - 1], units[n - 1])]
        else []
  }

  /** What the loop of add_recipe produces from the three lists; None where it
      raises: IndexError when `amount` or `unit` has fewer values than
      `ingredient_id`, ValueError when `int()` or `float()` refuses a value of
      a complete row. */
  function IngredientLines(ids: seq<string>, amounts: seq<string>, units: seq<string>,
                           toInt: string -> Option<int>, isFloat: string -> bool): (r: Option<seq<IngredientLine>>)
    ensures |amounts| < |ids| || |units| < |ids| ==> r.None?
    ensures r.Some? ==> |r.value| <= |ids|
    ensures r.Some? ==> forall l :: l in r.value ==> l.amount != "" && l.unit != "" && isFloat(l.amount)
  {
    if |amounts| < |ids| || |units| < |ids| then None
    else if exists i :: 0 <= i < |ids| && Complete(ids, amounts, units, i)
                        && (toInt(ids[i]).None? || !isFloat(amounts[i]))
    then None
    else Some(Kept(ids, amounts, units, toInt, |ids|))
  }

  /** The loop over `range(len(ingredient_ids))`; `toInt` and `isFloat` stand
      for Python's `int()` and `float()`. */
  method CollectIngredientLines(ids: seq<string>, amounts: seq<string>, units: seq<string>,
                                toInt: string -> Option<int>, isFloat: string -> bool)
    returns (lines: Option<seq<IngredientLine>>)
    ensures lines == IngredientLines(ids, amounts, units, toInt, isFloat)
  {
    var pending: seq<IngredientLine> := [];
    var i := 0;
    while i < |ids|
      invariant i <= |ids| && i <= |amounts| && i <= |units|
      invariant forall k :: 0 <= k < i && Complete(ids, amounts, units, k) ==>
                  toInt(ids[k]).Some? && isFloat(amounts[k])
      invariant pending == Kept(ids, amounts, units, toInt, i)
    {
      if i >= |amounts| || i >= |units| {
        return None;
      }
      var id, amount, unit := ids[i], amounts[i], units[i];
      if id != "" && amount != "" && unit != "" {
        var n := toInt(id);
        if n.None? || !isFloat(amount) {
          return None;
        }
        pending := pending + [IngredientLine(n.value, amount, unit)];
      }
      i := i + 1;
    }
    return Some(pending);
  }

  // ---------------------------------------------------------------------------
  // The application: the database and one client's session

  class App {
    var db: Db
    var session: Option<string>

    ghost predicate Valid()
      reads this
    {
      db.Valid()
    }

    constructor (initial: Db)
      requires initial.Valid()
      ensures Valid() && db == initial && session == None
    {
      db := initial;
      session := None;
    }

    /** GET and POST / : the comment feed. */
    method Index(req: Request) returns (resp: Response)
      requires Valid()
      modifies this
      ensures Valid()
      ensures Visit(old(db), old(session)).Anonymous? ==>
                resp == Redirect(LoginPage) && db == old(db) && session == old(session)
      ensures Visit(old(db), old(session)).Stale? ==>
                resp == Redirect(LoginPage) && db == old(db) && session == None
      ensures Visit(old(db), old(session)).Member? ==> session == old(session)
      ensures Visit(old(db), old(session)).Member? && req.Get? ==>
                db == old(db)
                && resp == Render(MainPage(NewestFirst(db.comments), Visit(old(db), old(session)).user.username))
      ensures Visit(old(db), old(session)).Member? && req.Post? && Field(req.form, "contents").None? ==>
                resp == BadRequest && db == old(db)
      ensures Visit(old(db), old(session)).Member? && req.Post? && Field(req.form, "contents").Some? ==>
                var saved := old(db).AddComment(Field(req.form, "contents").value, Visit(old(db), old(session)).user.id);
                if saved.Some? then resp == Redirect(IndexPage) && db == saved.value
                else resp == InternalServerError && db == old(db)
    {
      if session.None? {
        return Redirect(LoginPage);
      }
      var user := db.UserNamed(session.value);
      if user.None? {
        session := None;
        return Redirect(LoginPage);
      }
      var u := user.value;
      match req
      case Get =>
        resp := Render(MainPage(NewestFirst(db.comments), u.username));
      case Post(form) =>
        var contents := Field(form, "contents");
        if contents.None? {
          return BadRequest;
        }
        var saved := db.AddComment(contents.value, u.id);
        if saved.None? {
          return InternalServerError;
        }
        AddCommentKeepsValid(db, contents.value, u.id);
        db := saved.value;
        resp := Redirect(IndexPage);
    }

    /** GET and POST /register; `salt` is the randomness of the hash. */
    method Register(req: Request, salt: nat) returns (resp: Response)
      requires Valid()
      modifies this
      ensures Valid() && session == old(session)
      ensures req.Get? ==> resp == Render(RegisterForm) && db == old(db)
      ensures req.Post? && (Field(req.form, "username").None? || Field(req.form, "email").None?
                            || Field(req.form, "password").None?) ==>
                resp == BadRequest && db == old(db)
      ensures req.Post? && Field(req.form, "username").Some? && Field(req.form, "email").Some?
              && Field(req.form, "password").Some? ==>
                var username, email, password :=
                  Field(req.form, "username").value, Field(req.form, "email").value, Field(req.form, "password").value;
                var rejection := RegisterRejection(old(db), username, email, password);
                var saved := old(db).AddUser(username, email, GeneratePasswordHash(password, salt));
                if rejection.Some? then resp == Text(rejection.value) && db == old(db)
                else if saved.None? then resp == Text(StorageFailure) && db == old(db)
                else resp == Redirect(LoginPage) && db == saved.value
    {
      match req
      case Get =>
        resp := Render(RegisterForm);
      case Post(form) =>
        var username, email, password := Field(form, "username"), Field(form, "email"), Field(form, "password");
        if username.None? || email.None? || password.None? {
          return BadRequest;
        }
        var rejection := RegisterRejection(db, username.value, email.value, password.value);
        if rejection.Some? {
          return Text(rejection.value);
        }
        var hashed := GeneratePasswordHash(password.value, salt);
        var saved := db.AddUser(username.value, email.value, hashed);
        if saved.None? {
          return Text(StorageFailure);
        }
        AddUserKeepsValid(db, username.value, email.value, hashed);
        db := saved.value;
        resp := Redirect(LoginPage);
    }

    /** GET and POST /login. A failed attempt leaves the session as it was. */
    method Login(req: Request) returns (resp: Response)
      requires Valid()
      modifies this`session
      ensures Valid()
      ensures req.Get? ==> resp == Render(LoginForm) && session == old(session)
      ensures req.Post? && (Field(req.form, "username").None? || Field(req.form, "password").None?) ==>
                resp == BadRequest && session == old(session)
      ensures req.Post? && Field(req.form, "username").Some? && Field(req.form, "password").Some? ==>
                var username, password := Field(req.form, "username").value, Field(req.form, "password").value;
                if LoginAccepts(db, username, password) then resp == Redirect(IndexPage) && session == Some(username)
                else resp == Text(WrongCredentials) && session == old(session)
    {
      match req
      case Get =>
        resp := Render(LoginForm);
      case Post(form) =>
        var username, password := Field(form, "username"), Field(form, "password");
        if username.None? || password.None? {
          return BadRequest;
        }
        if LoginAccepts(db, username.value, password.value) {
          session := Some(username.value);
          return Redirect(IndexPage);
        }
        resp := Text(WrongCredentials);
    }

    /** GET /logout: drops the session entry whether or not there is one. */
    method Logout() returns (resp: Response)
      modifies this`session
      ensures resp == Redirect(LoginPage) && session == None
    {
      session := None;
      resp := Redirect(LoginPage);
    }

    /** POST /delete_user/<username>: only the logged-in user themself. The
        commit fails while the user still owns a recipe. */
    method DeleteUser(username: string) returns (resp: Response)
      requires Valid()
      modifies this
      ensures Valid()
      ensures old(session) != Some(username) ==>
                resp == Text(NotAuthorized) && db == old(db) && session == old(session)
      ensures old(session) == Some(username) && old(db).UserNamed(username).None? ==>
                resp == Text(UserNotFound) && db == old(db) && session == old(session)
      ensures old(session) == Some(username) && old(db).UserNamed(username).Some?
              && old(db).DeleteUser(old(db).UserNamed(username).value).None? ==>
                resp == InternalServerError && db == old(db) && session == old(session)
      ensures old(session) == Some(username) && old(db).UserNamed(username).Some?
              && old(db).DeleteUser(old(db).UserNamed(username).value).Some? ==>
                resp == Redirect(LoginPage) && session == None
                && db == old(db).DeleteUser(old(db).UserNamed(username).value).value
    {
      if session != Some(username) {
        return Text(NotAuthorized);
      }
      var user := db.UserNamed(username);
      if user.None? {
        return Text(UserNotFound);
      }
      var remaining := db.DeleteUser(user.value);
      if remaining.None? {
        return InternalServerError;
      }
      DeleteUserKeepsValid(db, user.value);
      db := remaining.value;
      session := None;
      resp := Redirect(LoginPage);
    }

    /** GET and POST /add_recipe. The recipe is committed first; its lines
        follow in a second commit, so a failure after the first commit leaves
        the recipe without lines. */
    method AddRecipe(req: Request, toInt: string -> Option<int>, isFloat: string -> bool) returns (resp: Response)
      requires Valid()
      modifies this
      ensures Valid()
      ensures Visit(old(db), old(session)).Anonymous? ==>
                resp == Redirect(LoginPage) && db == old(db) && session == old(session)
      ensures Visit(old(db), old(session)).Stale? ==>
                resp == Redirect(LoginPage) && db == old(db) && session == None
      ensures Visit(old(db), old(session)).Member? ==> session == old(session)
      ensures Visit(old(db), old(session)).Member? && req.Get? ==>
                resp == Render(AddRecipeForm(db.ingredients, Units)) && db == old(db)
      ensures Visit(old(db), old(session)).Member? && req.Post?
              && (Field(req.form, "title").None? || Field(req.form, "instructions").None?) ==>
                resp == BadRequest && db == old(db)
      ensures Visit(old(db), old(session)).Member? && req.Post?
              && Field(req.form, "title").Some? && Field(req.form, "instructions").Some? ==>
                var recipeId := old(db).next.recipes;
                var created := old(db).AddRecipe(Field(req.form, "title").value, Field(req.form, "instructions").value,
                                                 Visit(old(db), old(session)).user.id);
                var lines := IngredientLines(FieldList(req.form, "ingredient_id"), FieldList(req.form, "amount"),
                                             FieldList(req.form, "unit"), toInt, isFloat);
                if created.None? then resp == InternalServerError && db == old(db)
                else if lines.None? then resp == InternalServerError && db == created.value
                else
                  var stored := created.value.AddRecipeIngredients(recipeId, lines.value);
                  if stored.None? then resp == InternalServerError && db == created.value
                  else resp == Redirect(IndexPage) && db == stored.value
    {
      if session.None? {
        return Redirect(LoginPage);
      }
      var user := db.UserNamed(session.value);
      if user.None? {
        session := None;
        return Redirect(LoginPage);
      }
      var u := user.value;
      match req
      case Get =>
        resp := Render(AddRecipeForm(db.ingredients, Units));
      case Post(form) =>
        var title, instructions := Field(form, "title"), Field(form, "instructions");
        if title.None? || instructions.None? {
          return BadRequest;
        }
        var recipeId := db.next.recipes;
        var created := db.AddRecipe(title.value, instructions.value, u.id);
        if created.None? {
          return InternalServerError;
        }
        AddRecipeKeepsValid(db, title.value, instructions.value, u.id);
        db := created.value;
        var lines := CollectIngredientLines(FieldList(form, "ingredient_id"), FieldList(form, "amount"),
                                            FieldList(form, "unit"), toInt, isFloat);
        if lines.None? {
          return InternalServerError;
        }
        var stored := db.AddRecipeIngredients(recipeId, lines.value);
        if stored.None? {
          return InternalServerError;
        }
        AddRecipeIngredientsKeepsValid(db, recipeId, lines.value);
        db := stored.value;
        resp := Redirect(IndexPage);
    }

    /** POST /recipe/<id>/comment. The recipe id is not checked. */
    method AddRecipeComment(recipeId: nat, form: Form) returns (resp: Response)
      requires Valid()
      modifies this
      ensures Valid()
      ensures Visit(old(db), old(session)).Anonymous? ==>
                resp == Redirect(LoginPage) && db == old(db) && session == old(session)
      ensures Visit(old(db), old(session)).Stale? ==>
                resp == Redirect(LoginPage) && db == old(db) && session == None
      ensures Visit(old(db), old(session)).Member? ==> session == old(session)
      ensures Visit(old(db), old(session)).Member? && (Field(form, "content").None? || Field(form, "content") == Some("")) ==>
                resp == Text(EmptyComment) && db == old(db)
      ensures Visit(old(db), old(session)).Member? && Field(form, "content").Some? && Field(form, "content") != Some("") ==>
                var saved := old(db).AddRecipeComment(Field(form, "content").value, Visit(old(db), old(session)).user.id, recipeId);
                if saved.Some? then resp == Redirect(RecipePage(recipeId)) && db == saved.value
                else resp == InternalServerError && db == old(db)
    {
      if session.None? {
        return Redirect(LoginPage);
      }
      var user := db.UserNamed(session.value);
      if user.None? {
        session := None;
        return Redirect(LoginPage);
      }
      var content := Field(form, "content");
      if content.None? || content.value == "" {
        return Text(EmptyComment);
      }
      var saved := db.AddRecipeComment(content.value, user.value.id, recipeId);
      if saved.None? {
        return InternalServerError;
      }
      AddRecipeCommentKeepsValid(db, content.value, user.value.id, recipeId);
      db := saved.value;
      resp := Redirect(RecipePage(recipeId));
    }
  }
}
