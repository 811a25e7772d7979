/** The decisions the views of app/main/views.py take: who may edit, delete
    and create recipes, which comment page to show, the moderation flags,
    the follow guards and the choice of recipe feed. */
module Views {
  import opened Base
  import opened Models

  /* ---- edit_recipe and delete_recipe ---- */

  /** current_user == recipe.author; a recipe without an author has none. */
  predicate IsAuthor(u: Principal, author: Option<int>) {
    u.Member? && author == Some(u.id)
  }

  /** edit_recipe goes on (rather than abort(403)) for the author and for
      anyone who can(ADMINISTER). */
  predicate EditAllowed(u: Principal, author: Option<int>) {
    IsAuthor(u, author) || PrincipalCan(u, ADMINISTER)
  }

  /** Because ADMINISTER is the moderation bit, a Moderator may edit any
      recipe; a plain User only their own; the anonymous user none. */
  lemma EditAccess(id: int, author: Option<int>)
    ensures EditAllowed(Member(id, Some(Role("Moderator", false, ModeratorPermissions))), author)
    ensures EditAllowed(Member(id, Some(Role("User", true, UserPermissions))), author) <==> author == Some(id)
    ensures !EditAllowed(Anonymous, author)
  {
    RoleRanks(0);
  }

  /** A stored recipe: its author and image file. */
  datatype RecipeEntry = RecipeEntry(author: Option<int>, img: string)

  /** What a request ends with: get_or_404's 404, abort(403), going on to
      the form, a redirect, or an exception. */
  datatype Outcome = NotFound | Forbidden | Proceeds | FormShown | Redirected | Raised(error: PyError)

  /** The gate at the top of edit_recipe. */
  function EditGate(u: Principal, id: int, recipes: map<int, RecipeEntry>): Outcome {
    if id !in recipes then NotFound
    else if !EditAllowed(u, recipes[id].author) then Forbidden
    else Proceeds
  }

  /** edit_recipe reaches the form exactly for an existing recipe and its
      author or an administrator, and answers 404 before any 403. */
  lemma EditGateMeaning(u: Principal, id: int, recipes: map<int, RecipeEntry>)
    ensures EditGate(u, id, recipes) == Proceeds <==>
      id in recipes && (IsAuthor(u, recipes[id].author) || PrincipalIsAdministrator(u))
    ensures EditGate(u, id, recipes) == NotFound <==> id !in recipes
    ensures EditGate(Anonymous, id, recipes) != Proceeds
  {
  }

  /** delete_recipe: the recipe table, the image files and the outcome.
      Only the author deletes; the delete runs delete_img first, whose error
      aborts it. */
  function DeleteRecipe(u: Principal, id: int, recipes: map<int, RecipeEntry>, files: set<string>,
                        defaultImg: string): (map<int, RecipeEntry>, set<string>, Outcome)
  {
    if id !in recipes then (recipes, files, NotFound)
    else if !IsAuthor(u, recipes[id].author) then (recipes, files, Redirected)
    else
      var (files', raised) := AfterDeleteImg(recipes[id].img, defaultImg, files);
      if raised.Some? then (recipes, files', Raised(raised.value))
      else (map k | k in recipes && k != id :: recipes[k], files', Redirected)
  }

  /** Anyone but the author, administrators included, changes nothing; the
      author removes exactly that recipe and at most its image. */
  lemma DeleteMeaning(u: Principal, id: int, recipes: map<int, RecipeEntry>, files: set<string>, defaultImg: string)
    ensures var (recipes', files', _) := DeleteRecipe(u, id, recipes, files, defaultImg);
      && (!(id in recipes && IsAuthor(u, recipes[id].author)) ==> recipes' == recipes && files' == files)
      && (forall k :: k in recipes && k != id ==> k in recipes' && recipes'[k] == recipes[k])
      && recipes'.Keys <= recipes.Keys
      && files' <= files
      && (id in recipes ==> files - files' <= {recipes[id].img})
    ensures var (recipes', _, outcome) := DeleteRecipe(u, id, recipes, files, defaultImg);
      id in recipes && IsAuthor(u, recipes[id].author) && !outcome.Raised? ==> id !in recipes'
  {
  }

  /* ---- create_recipe ---- */

  /** create_recipe builds a recipe only for a POST by a user who
      can(WRITE_RECIPES) with a form that validates. */
  predicate CreateAllowed(u: Principal, isPost: bool, formValid: bool) {
    isPost && PrincipalCan(u, WRITE_RECIPES) && formValid
  }

  /** The default User role may create; the anonymous user may not. */
  lemma CreateAccess(id: int, isPost: bool, formValid: bool)
    ensures CreateAllowed(Member(id, Some(Role("User", true, UserPermissions))), isPost, formValid) <==> isPost && formValid
    ensures !CreateAllowed(Anonymous, isPost, formValid)
    ensures !CreateAllowed(Member(id, None), isPost, formValid)
  {
    RoleRanks(0);
  }

  /** A RecipeIngredient as create_recipe builds it. */
  datatype RecipeIngredient<A> = RecipeIngredient(amount: A, units: string, ingredient: string)

  function Min3(a: nat, b: nat, c: nat): nat {
    if a <= b && a <= c then a else if b <= c then b else c
  }

  /** The loop over zip(amounts, units, names): one ingredient per position,
      as many as the shortest list. */
  method BuildIngredients<A>(amounts: seq<A>, units: seq<string>, names: seq<string>)
    returns (ings: seq<RecipeIngredient<A>>)
    ensures |ings| == Min3(|amounts|, |units|, |names|)
    ensures forall i :: 0 <= i < |ings| ==> ings[i] == RecipeIngredient(amounts[i], units[i], names[i])
  {
    var n := Min3(|amounts|, |units|, |names|);
    ings := [];
    var i := 0;
    while i < n
      invariant 0 <= i <= n
      invariant |ings| == i
      invariant forall k :: 0 <= k < i ==> ings[k] == RecipeIngredient(amounts[k], units[k], names[k])
    {
      ings := ings + [RecipeIngredient(amounts[i], units[i], names[i])];
      i := i + 1;
    }
  }

  /** The image file of a new recipe: the default when nothing is uploaded,
      else the name recipe_imgs.save gives it; None when the upload was not
      allowed. */
  function NewImage(uploadName: string, saved: Option<string>, defaultImg: string): Option<string> {
    if uploadName != "" then saved else Some(defaultImg)
  }

  /** create_recipe: the recipe table and the outcome. newId is the id the
      database gives the new row; saved is what recipe_imgs.save returns
      for the upload, None when it raised UploadNotAllowed. A GET, a user
      without WRITE_RECIPES and a form that does not validate all end with
      the form shown; so does a refused upload. */
  function CreateRecipe(u: Principal, isPost: bool, formValid: bool, uploadName: string,
                        saved: Option<string>, defaultImg: string, newId: int,
                        recipes: map<int, RecipeEntry>): (map<int, RecipeEntry>, Outcome)
  {
    if !CreateAllowed(u, isPost, formValid) then (recipes, FormShown)
    else
      match NewImage(uploadName, saved, defaultImg)
      case None => (recipes, FormShown)
      case Some(img) => (recipes[newId := RecipeEntry(Some(u.id), img)], Redirected)
  }

  /** A recipe is created exactly for an allowed POST whose upload, if any,
      was saved; then it is the only row added, its author is the current
      user, and its image is the default when nothing was uploaded and the saved name otherwise.
      Otherwise the table is unchanged and the form is shown again. */
  lemma CreateMeaning(u: Principal, isPost: bool, formValid: bool, uploadName: string,
                      saved: Option<string>, defaultImg: string, newId: int,
                      recipes: map<int, RecipeEntry>)
    requires newId !in recipes
    ensures var (recipes', outcome) := CreateRecipe(u, isPost, formValid, uploadName, saved, defaultImg, newId, recipes);
      && (outcome == Redirected <==> CreateAllowed(u, isPost, formValid) && (uploadName == "" || saved.Some?))
      && (outcome != Redirected ==> outcome == FormShown && recipes' == recipes)
      && (outcome == Redirected ==>
            && recipes'.Keys == recipes.Keys + {newId}
            && (forall k :: k in recipes ==> recipes'[k] == recipes[k])
            && IsAuthor(u, recipes'[newId].author)
            && (uploadName == "" ==> recipes'[newId].img == defaultImg)
            && (uploadName != "" ==> recipes'[newId].img == saved.value))
  {
  }

  /** The author of a recipe just created may then edit it. */
  lemma CreatedIsEditable(u: Principal, isPost: bool, formValid: bool, uploadName: string,
                          saved: Option<string>, defaultImg: string, newId: int,
                          recipes: map<int, RecipeEntry>)
    ensures var (recipes', outcome) := CreateRecipe(u, isPost, formValid, uploadName, saved, defaultImg, newId, recipes);
      outcome == Redirected ==> EditGate(u, newId, recipes') == Proceeds
  {
  }

  /* ---- show_recipe: page == -1 ---- */

  /** The page show_recipe shows: the one asked for, or for -1 the last page
      ceil(count / per_page); per_page 0 raises ZeroDivisionError. */
  function CommentPage(requested: int, count: nat, perPage: nat): (r: Result)
  {
    if requested != -1 then Page(requested)
    else if perPage == 0 then Failed(ZeroDivisionError)
    else Page((count + perPage - 1) / perPage)
  }

  datatype Result = Page(page: int) | Failed(error: PyError)

  /** For -1 the page is the smallest p with p * per_page >= count, which is
      0 when there are no comments. */
  lemma LastPage(count: nat, perPage: nat)
    requires perPage > 0
    ensures CommentPage(-1, count, perPage).Page?
    ensures var p := CommentPage(-1, count, perPage).page;
      p >= 0 && p * perPage >= count && (p == 0 || (p - 1) * perPage < count)
    ensures count == 0 ==> CommentPage(-1, count, perPage) == Page(0)
  {
    var p := (count + perPage - 1) / perPage;
    var r := (count + perPage - 1) % perPage;
    assert p * perPage + r == count + perPage - 1;
    if p > 0 {
      assert (p - 1) * perPage == p * perPage - perPage;
    }
  }

  /* ---- moderate_enable and moderate_disable ---- */

  /** A comment row; only disabled is changed by moderation. */
  class Comment {
    var body: string
    var author: Option<int>
    var disabled: bool

    constructor (body: string, author: Option<int>)
      ensures this.body == body && this.author == author && !disabled
    {
      this.body := body;
      this.author := author;
      disabled := false;
    }

    /** moderate_enable */
    method Enable()
      modifies this
      ensures !disabled
      ensures body == old(body) && author == old(author)
    {
      disabled := false;
    }

    /** moderate_disable */
    method Disable()
      modifies this
      ensures disabled
      ensures body == old(body) && author == old(author)
    {
      disabled := true;
    }
  }

  /* ---- follow and unfollow ---- */

  /** What the follow and unfollow views do. */
  datatype FollowStep = InvalidUser | Unchanged | CallFollow | CallUnfollow

  /** follow: the target must exist and not be followed already. */
  function FollowView(targetExists: bool, following: bool): FollowStep {
    if !targetExists then InvalidUser else if following then Unchanged else CallFollow
  }

  /** unfollow: the target must exist and be followed. */
  function UnfollowView(targetExists: bool, following: bool): FollowStep {
    if !targetExists then InvalidUser else if !following then Unchanged else CallUnfollow
  }

  /** follow() is called only for an existing user not yet followed, and
      unfollow() only for one followed; for a given state at most one of
      the two views changes anything. */
  lemma FollowGuards(targetExists: bool, following: bool)
    ensures FollowView(targetExists, following) == CallFollow <==> targetExists && !following
    ensures UnfollowView(targetExists, following) == CallUnfollow <==> targetExists && following
    ensures !(FollowView(targetExists, following) == CallFollow && UnfollowView(targetExists, following) == CallUnfollow)
    ensures !targetExists ==> FollowView(targetExists, following) == InvalidUser == UnfollowView(targetExists, following)
  {
  }

  /** Whether the current user follows the target after a view: follow()
      makes it followed and unfollow() not followed; the other steps leave
      it as it was. */
  function Following(step: FollowStep, following: bool): bool {
    match step
    case CallFollow => true
    case CallUnfollow => false
    case _ => following
  }

  /** After the follow view the target is followed, so a second follow only
      reports "already following"; after the unfollow view it is not, so a
      second unfollow only reports "not following"; and unfollowing after
      following restores the state of a user who did not follow. A missing
      target changes nothing. */
  lemma FollowTwice(targetExists: bool, following: bool)
    ensures targetExists ==> var f := Following(FollowView(targetExists, following), following);
      f && FollowView(targetExists, f) == Unchanged
    ensures targetExists ==> var f := Following(UnfollowView(targetExists, following), following);
      !f && UnfollowView(targetExists, f) == Unchanged
    ensures targetExists ==> var f := Following(FollowView(targetExists, following), following);
      Following(UnfollowView(targetExists, f), f) == false
    ensures !targetExists ==>
      Following(FollowView(targetExists, following), following) == following &&
      Following(UnfollowView(targetExists, following), following) == following
  {
  }

  /* ---- index: the recipe feed ---- */

  /** The cookie values /all and /followed set. */
  const ShowAllCookie: string := ""
  const ShowFollowedCookie: string := "1"

  /** index() lists followed recipes only for a signed-in user whose
      show_followed cookie is non-empty; a missing cookie counts as ''. */
  predicate ShowFollowed(authenticated: bool, cookie: Option<string>) {
    authenticated && (if cookie.Some? then cookie.value else "") != ""
  }

  /** After /all every user sees all recipes; after /followed a signed-in
      user sees the followed feed; the anonymous user never does. */
  lemma FeedChoice(authenticated: bool, cookie: Option<string>)
    ensures !ShowFollowed(authenticated, Some(ShowAllCookie))
    ensures ShowFollowed(authenticated, Some(ShowFollowedCookie)) <==> authenticated
    ensures !ShowFollowed(false, cookie)
    ensures !ShowFollowed(authenticated, None)
  {
  }
}
