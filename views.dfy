/** The request handlers of api/views.py. A handler that changes the store
    is a method on a `Database`; a read-only one is a function of its state.
    The authenticated user of a request is the parameter `userId`; who may
    call which handler (the permission classes) is not part of this model. */
module Views {
  import opened Wrappers
  import opened Text
  import opened Tables
  import opened Models
  import opened Serializers

  /** The maximum length of a title name that `partial_update` accepts. */
  const TITLE_NAME_MAX_LEN: nat := 256

  /** An HTTP response: its status and, where there is one, its body. */
  datatype Response<T> =
    | Ok(body: T)
    | Created(body: T)
    | NoContent
    | BadRequest(errors: set<ApiError>)
    | NotFound
    | MethodNotAllowed
  {
    function Status(): nat
    {
      match this
      case Ok(_) => 200
      case Created(_) => 201
      case NoContent => 204
      case BadRequest(_) => 400
      case NotFound => 404
      case MethodNotAllowed => 405
    }
  }

  /** The keys under which the errors the handlers raise themselves appear
      in a 400 body, and a blank field's error appears under the field. */
  lemma ErrorKeys(field: string)
    ensures BadConfirmationCode.Key() == "confirmation_code"
    ensures NameTooLong.Key() == "name"
    ensures FieldBlank(field).Key() == field
  {
  }

  // ---------------------------------------------------------------- sign-up

  /** `SignupViewSet.create`: validate, then `get_or_create` the user with
      exactly the validated (trimmed) username and e-mail. Sending the
      confirmation code is not part of this model. */
  method Signup(db: Database, username: string, email: string,
                usernameOk: string -> bool, emailOk: string -> bool)
    returns (resp: Response<SignupData>)
    requires db.Valid()
    modifies db
    ensures db.Valid()
    ensures var v := ValidateSignup(old(db.users), username, email, usernameOk, emailOk);
      && (v.Failure? ==> resp == BadRequest(v.error) && db.State() == old(db.State()))
      && (v.Success? ==> resp == Ok(v.value))
      && (v.Success? && PairExists(old(db.users), v.value.username, v.value.email) ==>
            db.State() == old(db.State()))
      && (v.Success? && !PairExists(old(db.users), v.value.username, v.value.email) ==>
            db.State() == old(db.State()).(users := old(db.users) + [NewUser(old(db.nextId), v.value.username, v.value.email)],
                                           nextId := old(db.nextId) + 1))
    ensures resp.Ok? ==> PairExists(db.users, resp.body.username, resp.body.email)
    ensures resp.Ok? ==> forall u, w ::
      (u in db.users && w in db.users && u.username == resp.body.username && w.username == resp.body.username)
      ==> u == w
  {
    var v := ValidateSignup(db.users, username, email, usernameOk, emailOk);
    if v.Failure? {
      return BadRequest(v.error);
    }
    var name, mail := v.value.username, v.value.email;
    var existing := Find(db.users, (u: User) => u.username == name && u.email == mail);
    if existing.None? {
      var created := db.AddUser(name, mail);
      assert created in db.users;
    }
    resp := Ok(v.value);
    forall u, w | u in db.users && w in db.users && u.username == name && w.username == name
      ensures u == w
    {
      assert Username(u) == Username(w);
    }
  }

  /** The same sign-up sent twice: the second finds the account the first
      left and changes nothing. */
  method SignupTwice(db: Database, username: string, email: string,
                     usernameOk: string -> bool, emailOk: string -> bool)
    returns (first: Response<SignupData>, second: Response<SignupData>)
    requires db.Valid()
    modifies db
    ensures db.Valid()
    ensures first.Ok? ==> second == first
    ensures first.Ok? ==> db.users == old(db.users)
                          || db.users == old(db.users) + [NewUser(old(db.nextId), Trim(username), Trim(email))]
    ensures !first.Ok? ==> second == first && db.State() == old(db.State())
  {
    first := Signup(db, username, email, usernameOk, emailOk);
    ghost var mid := db.State();
    second := Signup(db, username, email, usernameOk, emailOk);
    if first.Ok? {
      assert ValidateSignup(mid.users, username, email, usernameOk, emailOk).Success?;
      assert db.State() == mid;
    }
  }

  // ---------------------------------------------------------------- tokens

  /** The token `AccessToken.for_user` issues; its encoding is not modelled. */
  datatype Token = AccessToken(userId: nat)

  /** The field validators of `UserGetTokenSerializer`: both fields are
      trimmed, a blank one reports only that, otherwise its pattern and
      length validators run. */
  function TokenFieldErrors(username: string, code: string,
                            usernameOk: string -> bool, codeOk: string -> bool): (errs: set<ApiError>)
    ensures errs == {} <==>
      Trim(username) != "" && usernameOk(Trim(username)) && Trim(code) != "" && codeOk(Trim(code))
    ensures errs <= {FieldBlank("username"), UsernameInvalid, FieldBlank("confirmation_code"), CodeFieldInvalid}
  {
    var name := RequiredText("username", username);
    var c := RequiredText("confirmation_code", code);
    (if name.Failure? then name.error else if usernameOk(name.value) then {} else {UsernameInvalid})
    + (if c.Failure? then c.error else if codeOk(c.value) then {} else {CodeFieldInvalid})
  }

  /** `GetTokenViewSet.create`; `checkToken` is `default_token_generator.check_token`.
      The user is looked up by the trimmed username and the trimmed code is checked. */
  function GetToken(users: seq<User>, username: string, code: string,
                    usernameOk: string -> bool, codeOk: string -> bool,
                    checkToken: (User, string) -> bool): (r: Response<Token>)
    ensures r.Ok? || r.BadRequest? || r.NotFound?
    ensures TokenFieldErrors(username, code, usernameOk, codeOk) != {} ==>
      r == BadRequest(TokenFieldErrors(username, code, usernameOk, codeOk))
    ensures r.NotFound? <==>
      TokenFieldErrors(username, code, usernameOk, codeOk) == {} && !UsernameInUse(users, Trim(username))
    ensures r.Ok? ==>
      exists u :: u in users && u.username == Trim(username) && checkToken(u, Trim(code)) && r.body == AccessToken(u.id)
    ensures UniqueBy(users, Username) && TokenFieldErrors(username, code, usernameOk, codeOk) == {} ==>
      forall u :: u in users && u.username == Trim(username) ==>
        r == (if checkToken(u, Trim(code)) then Ok(AccessToken(u.id)) else BadRequest({BadConfirmationCode}))
    ensures r.BadRequest? && TokenFieldErrors(username, code, usernameOk, codeOk) == {} ==>
      r.errors == {BadConfirmationCode}
  {
    var fieldErrors := TokenFieldErrors(username, code, usernameOk, codeOk);
    var name := Trim(username);
    if fieldErrors != {} then BadRequest(fieldErrors)
    else match FindBy(users, Username, name)
      case None => NotFound
      case Some(u) =>
        assert forall w :: w in users && w.username == name ==> Username(w) == Username(u);
        if checkToken(u, Trim(code)) then Ok(AccessToken(u.id)) else BadRequest({BadConfirmationCode})
  }

  // ---------------------------------------------------------------- users

  /** `get_object_or_404(CustomUser, username=...)`. */
  function UserNamed(users: seq<User>, username: string): (r: Option<User>)
    ensures r.Some? <==> UsernameInUse(users, username)
    ensures r.Some? ==> r.value in users && r.value.username == username
  {
    var r := FindBy(users, Username, username);
    assert r.None? ==> forall u :: u in users ==> Username(u) != username;
    r
  }

  /** `get_username_info` on a GET. */
  function GetUserInfo(users: seq<User>, username: string): (r: Response<User>)
    ensures r.Ok? || r.NotFound?
    ensures r.NotFound? <==> !UsernameInUse(users, username)
    ensures r.Ok? ==> r.body in users && r.body.username == username
  {
    match UserNamed(users, username)
    case None => NotFound
    case Some(u) => Ok(u)
  }

  /** `get_username_info` on a PATCH: validate against the other users, then save. */
  method PatchUserInfo(db: Database, username: string, p: UserPatch,
                       usernameOk: string -> bool, emailOk: string -> bool)
    returns (resp: Response<User>)
    requires db.Valid()
    modifies db
    ensures db.Valid()
    ensures resp.Ok? || resp.BadRequest? || resp.NotFound?
    ensures resp.NotFound? <==> !UsernameInUse(old(db.users), username)
    ensures !resp.Ok? ==> db.State() == old(db.State())
    ensures resp.BadRequest? ==> exists u ::
      && u in old(db.users) && u.username == username
      && ValidateUserPatch(old(db.users), u.id, p, usernameOk, emailOk).Failure?
      && resp == BadRequest(ValidateUserPatch(old(db.users), u.id, p, usernameOk, emailOk).error)
    ensures resp.Ok? ==> exists u ::
      && u in old(db.users) && u.username == username
      && ValidateUserPatch(old(db.users), u.id, p, usernameOk, emailOk).Success?
      && resp.body == ApplyUserPatch(u, ValidateUserPatch(old(db.users), u.id, p, usernameOk, emailOk).value)
      && db.State() == old(db.State()).(users := ReplaceBy(old(db.users), UserId, resp.body))
  {
    var found := UserNamed(db.users, username);
    if found.None? {
      return NotFound;
    }
    var u := found.value;
    var v := ValidateUserPatch(db.users, u.id, p, usernameOk, emailOk);
    if v.Failure? {
      return BadRequest(v.error);
    }
    ValidatedUserPatchStaysUnique(db.users, u, p, usernameOk, emailOk);
    var updated := ApplyUserPatch(u, v.value);
    db.ReplaceUser(updated);
    resp := Ok(updated);
  }

  /** `get_username_info` on a DELETE: the user goes, with its reviews and comments. */
  method DeleteUserInfo(db: Database, username: string) returns (resp: Response<User>)
    requires db.Valid()
    modifies db
    ensures db.Valid()
    ensures resp.NoContent? || resp.NotFound?
    ensures resp.NotFound? <==> !UsernameInUse(old(db.users), username)
    ensures resp.NotFound? ==> db.State() == old(db.State())
    ensures resp.NoContent? ==> !UsernameInUse(db.users, username)
    ensures resp.NoContent? ==> exists u ::
      && u in old(db.users) && u.username == username
      && db.State() == UserDeleted(old(db.State()), u.id)
  {
    var found := UserNamed(db.users, username);
    if found.None? {
      return NotFound;
    }
    var u := found.value;
    ghost var before := db.users;
    db.DeleteUser(u.id);
    resp := NoContent;
    forall w | w in db.users ensures w.username != username {
      assert w in before && w.id != u.id;
      assert Username(w) == Username(u) ==> w == u;
    }
  }

  /** `get_data_for_me` on a GET. */
  function MeGet(users: seq<User>, userId: nat): (r: Response<User>)
    requires userId in KeySet(users, UserId)
    ensures r.Ok? && r.body in users && r.body.id == userId
  {
    var found := FindBy(users, UserId, userId);
    Ok(found.value)
  }

  /** `get_data_for_me` on a PATCH: the requesting user edits their own
      record, validated against the other users, and the save puts the old
      role back whatever the payload says. */
  method PatchMe(db: Database, userId: nat, p: UserPatch,
                 usernameOk: string -> bool, emailOk: string -> bool)
    returns (resp: Response<User>)
    requires db.Valid()
    requires userId in KeySet(db.users, UserId)
    modifies db
    ensures db.Valid()
    ensures resp.Ok? || resp.BadRequest?
    ensures var v := ValidateUserPatch(old(db.users), userId, p, usernameOk, emailOk);
      && (resp.BadRequest? <==> v.Failure?)
      && (v.Failure? ==> resp == BadRequest(v.error) && db.State() == old(db.State()))
      && (v.Success? ==> exists u ::
            && u in old(db.users) && u.id == userId
            && resp == Ok(ApplyUserPatch(u, v.value.(role := Some(u.role))))
            && db.State() == old(db.State()).(users := ReplaceBy(old(db.users), UserId, resp.body)))
    ensures forall u, w :: u in old(db.users) && w in db.users && u.id == userId && w.id == userId
                           ==> w.role == u.role
  {
    var u := FindBy(db.users, UserId, userId).value;
    var v := ValidateUserPatch(db.users, u.id, p, usernameOk, emailOk);
    if v.Failure? {
      resp := BadRequest(v.error);
      forall x, w | x in db.users && w in db.users && x.id == userId && w.id == userId
        ensures w.role == x.role
      {
        assert UserId(x) == UserId(w);
      }
      return;
    }
    ValidatedUserPatchStaysUnique(db.users, u, p, usernameOk, emailOk);
    var updated := ApplyUserPatch(u, v.value.(role := Some(u.role)));
    ghost var before := db.users;
    db.ReplaceUser(updated);
    resp := Ok(updated);
    forall x, w | x in before && w in db.users && x.id == userId && w.id == userId
      ensures w.role == x.role
    {
      assert UserId(x) == UserId(u);
    }
  }

  // ---------------------------------------------------------------- titles

  /** A title as `TitleReadSerializer` shows it, with its rating annotation. */
  datatype TitleView = TitleView(title: Title, rating: Option<int>)

  /** The reviews of one title (`title.reviews`). */
  function ReviewsOf(reviews: seq<Review>, titleId: nat): (r: seq<Review>)
    ensures forall x :: x in r <==> x in reviews && x.titleId == titleId
    ensures forall x :: multiset(r)[x] == if x.titleId == titleId then multiset(reviews)[x] else 0
  {
    Filter(reviews, KeyIs(ReviewTitle, titleId))
  }

  /** The sum of the scores of some reviews. */
  function ScoreSum(reviews: seq<Review>): int
  {
    if reviews == [] then 0 else reviews[0].score + ScoreSum(reviews[1..])
  }

  /** The `rating` of a title as the API shows it: `Avg('reviews__score')`,
      absent for a title without reviews, which the integer field of
      `TitleReadSerializer` rounds down. */
  function Rating(reviews: seq<Review>, titleId: nat): (r: Option<int>)
    ensures r.None? <==> forall x :: x in reviews ==> x.titleId != titleId
    ensures r.Some? ==>
      var n := |ReviewsOf(reviews, titleId)|;
      n > 0 && n * r.value <= ScoreSum(ReviewsOf(reviews, titleId)) < n * (r.value + 1)
  {
    var rs := ReviewsOf(reviews, titleId);
    if rs == [] then None
    else
      assert rs[0] in rs;
      DivBounds(ScoreSum(rs), |rs|);
      Some(ScoreSum(rs) / |rs|)
  }

  /** The rounded-down quotient `s / n` is the `d` with `n * d <= s < n * (d + 1)`. */
  lemma DivBounds(s: int, n: int)
    requires n > 0
    ensures n * (s / n) <= s < n * (s / n + 1)
  {
  }

  /** Scores that each lie in [MIN_SCORE, MAX_SCORE] sum to between n times either bound. */
  lemma {:induction false} ScoreSumBounds(reviews: seq<Review>)
    requires forall x :: x in reviews ==> ScoreInRange(x.score)
    ensures |reviews| * MIN_SCORE <= ScoreSum(reviews) <= |reviews| * MAX_SCORE
  {
    if reviews != [] {
      assert reviews[0] in reviews;
      assert forall x :: x in reviews[1..] ==> x in reviews;
      ScoreSumBounds(reviews[1..]);
    }
  }

  /** A rating, when present, lies within the score bounds. */
  lemma RatingInRange(db: DbState, titleId: nat)
    requires ScoresInRange(db)
    ensures Rating(db.reviews, titleId).Some? ==>
      MIN_SCORE <= Rating(db.reviews, titleId).value <= MAX_SCORE
  {
    var r := Rating(db.reviews, titleId);
    if r.Some? {
      var rs := ReviewsOf(db.reviews, titleId);
      ScoreSumBounds(rs);
      QuotientBounds(|rs|, r.value, ScoreSum(rs), MIN_SCORE, MAX_SCORE);
    }
  }

  /** The rounded-down quotient of a sum of n values in [lo, hi] by n lies in [lo, hi]. */
  lemma QuotientBounds(n: int, d: int, s: int, lo: int, hi: int)
    requires n > 0
    requires n * d <= s < n * (d + 1)
    requires n * lo <= s <= n * hi
    ensures lo <= d <= hi
  {
    if d > hi {
      assert n * d >= n * (hi + 1) by { MulMonotone(n, hi + 1, d); }
    }
    if d < lo {
      assert n * (d + 1) <= n * lo by { MulMonotone(n, d + 1, lo); }
    }
  }

  lemma MulMonotone(n: int, a: int, b: int)
    requires n > 0 && a <= b
    ensures n * a <= n * b
  {
    assert n * b - n * a == n * (b - a);
  }

  /** Every title with its rating, as the `TitleViewSet` queryset annotates them. */
  function Annotated(titles: seq<Title>, reviews: seq<Review>): (r: seq<TitleView>)
    ensures |r| == |titles|
    ensures forall i :: 0 <= i < |r| ==> r[i] == TitleView(titles[i], Rating(reviews, titles[i].id))
  {
    if titles == [] then []
    else [TitleView(titles[0], Rating(reviews, titles[0].id))] + Annotated(titles[1..], reviews)
  }

  /** A title retrieved by id, with its rating. */
  function TitleRetrieve(db: DbState, id: nat): (r: Response<TitleView>)
    ensures r.Ok? || r.NotFound?
    ensures r.NotFound? <==> id !in KeySet(db.titles, TitleId)
    ensures r.Ok? ==> r.body.title in db.titles && r.body.title.id == id
                      && r.body.rating == Rating(db.reviews, id)
  {
    match FindBy(db.titles, TitleId, id)
    case None => NotFound
    case Some(t) => Ok(TitleView(t, Rating(db.reviews, id)))
  }

  /** `TitleViewSet.update`: a full update (PUT) is refused outright. */
  method TitleUpdate(db: Database, id: nat, data: TitleData) returns (resp: Response<Title>)
    ensures resp == MethodNotAllowed && resp.Status() == 405
  {
    resp := MethodNotAllowed;
  }

  /** `TitleViewSet.partial_update`: look the title up, validate the fields
      present, refuse a validated (trimmed) name over TITLE_NAME_MAX_LEN,
      then save. */
  method TitlePartialUpdate(db: Database, id: nat, p: TitlePatch, currentYear: int)
    returns (resp: Response<Title>)
    requires db.Valid()
    modifies db
    ensures db.Valid()
    ensures resp.Ok? || resp.BadRequest? || resp.NotFound?
    ensures !resp.Ok? ==> db.State() == old(db.State())
    ensures resp.NotFound? <==> id !in KeySet(old(db.titles), TitleId)
    ensures var v := ValidateTitlePatch(old(db.State()), p, currentYear);
      id in KeySet(old(db.titles), TitleId) ==>
        && (v.Failure? ==> resp == BadRequest(v.error))
        && (v.Success? && p.name.Some? && |Trim(p.name.value)| > TITLE_NAME_MAX_LEN ==>
              resp == BadRequest({NameTooLong}))
        && (v.Success? && !(p.name.Some? && |Trim(p.name.value)| > TITLE_NAME_MAX_LEN) ==> resp.Ok?)
    ensures resp.BadRequest? && NameTooLong in resp.errors ==>
      p.name.Some? && |Trim(p.name.value)| > TITLE_NAME_MAX_LEN
    ensures resp.Ok? ==> exists t ::
      && t in old(db.titles) && t.id == id
      && resp.body == ApplyTitlePatch(t, ValidateTitlePatch(old(db.State()), p, currentYear).value)
      && db.State() == old(db.State()).(titles := ReplaceBy(old(db.titles), TitleId, resp.body))
  {
    var found := FindBy(db.titles, TitleId, id);
    if found.None? {
      return NotFound;
    }
    var t := found.value;
    var v := ValidateTitlePatch(db.State(), p, currentYear);
    if v.Failure? {
      return BadRequest(v.error);
    }
    if v.value.name.Some? && |v.value.name.value| > TITLE_NAME_MAX_LEN {
      return BadRequest({NameTooLong});
    }
    var updated := ApplyTitlePatch(t, v.value);
    assert TitlesLinked(db.titles, KeySet(db.categories, EntryId), KeySet(db.genres, EntryId));
    if p.category.Some? {
      ghost var c :| c in db.categories && c.slug == p.category.value && c.id == v.value.category.value;
      assert EntryId(c) in KeySet(db.categories, EntryId);
    }
    db.ReplaceTitle(updated);
    resp := Ok(updated);
  }

  /** A title POST: `TitleCreateSerializer` validation, then its `create`.
      The genres saved are exactly the genres the slugs name, and the
      category the one its slug names. */
  method TitleCreate(db: Database, data: TitleData, currentYear: int) returns (resp: Response<Title>)
    requires db.Valid()
    modifies db
    ensures db.Valid()
    ensures resp.Created? || resp.BadRequest?
    ensures var v := ValidateTitle(old(db.State()), data, currentYear);
      && (v.Failure? ==> resp == BadRequest(v.error) && db.State() == old(db.State()))
      && (v.Success? ==>
            && resp.Created?
            && resp.body == Title(old(db.nextId), v.value.name, v.value.year, v.value.description,
                                  v.value.genres, Some(v.value.category))
            && db.State() == old(db.State()).(titles := old(db.titles) + [resp.body],
                                              nextId := old(db.nextId) + 1))
    ensures resp.Created? ==>
      && resp.body.name == Trim(data.name) && resp.body.year == data.year
      && resp.body.description == Trim(data.description)
      && data.genre.Some? && resp.body.genres == SlugIds(old(db.genres), data.genre.value)
      && data.category.Some? && resp.body.category.Some?
      && (exists c :: c in old(db.categories) && c.slug == data.category.value)
      && (forall c :: c in old(db.categories) && c.slug == data.category.value ==>
            resp.body.category.value == c.id)
  {
    var v := ValidateTitle(db.State(), data, currentYear);
    if v.Failure? {
      return BadRequest(v.error);
    }
    ghost var c :| c in db.categories && c.slug == data.category.value && c.id == v.value.category;
    assert EntryId(c) in KeySet(db.categories, EntryId);
    var t := CreateTitle(db, v.value);
    resp := Created(t);
  }

  /** A title DELETE, with the cascade to its reviews and their comments. */
  method TitleDestroy(db: Database, id: nat) returns (resp: Response<Title>)
    requires db.Valid()
    modifies db
    ensures db.Valid()
    ensures resp.NoContent? || resp.NotFound?
    ensures resp.NotFound? <==> id !in KeySet(old(db.titles), TitleId)
    ensures resp.NotFound? ==> db.State() == old(db.State())
    ensures resp.NoContent? ==> db.State() == TitleDeleted(old(db.State()), id)
  {
    if FindBy(db.titles, TitleId, id).None? {
      return NotFound;
    }
    db.DeleteTitle(id);
    resp := NoContent;
  }

  // ---------------------------------------------------------------- categories and genres

  /** The `search` query parameter of the category and genre lists: a
      non-empty value keeps the entries whose name contains it, ignoring
      case; an absent or empty one keeps them all. */
  function SearchByName(entries: seq<SlugEntry>, search: Option<string>): (r: seq<SlugEntry>)
    ensures search.None? || search.value == "" ==> r == entries
    ensures forall e :: e in r <==> e in entries && (search.Some? ==> IContains(e.name, search.value))
    ensures forall e ::
      multiset(r)[e] == (if search.Some? && !IContains(e.name, search.value) then 0 else multiset(entries)[e])
  {
    if search.None? || search.value == "" then
      assert forall e: SlugEntry :: IContains(e.name, "") by {
        forall e: SlugEntry ensures IContains(e.name, "") { IContainsEmpty(e.name); }
      }
      entries
    else
      var q := search.value;
      Filter(entries, (e: SlugEntry) => IContains(e.name, q))
  }

  /** `CategoryViewSet.get_queryset`. */
  function CategoryList(db: DbState, search: Option<string>): (r: Response<seq<Category>>)
    ensures r.Ok?
    ensures search.None? || search.value == "" ==> r.body == db.categories
    ensures forall c :: c in r.body <==>
      c in db.categories && (search.Some? && search.value != "" ==> IContains(c.name, search.value))
    ensures forall c ::
      multiset(r.body)[c] == (if search.Some? && search.value != "" && !IContains(c.name, search.value) then 0 else multiset(db.categories)[c])
  {
    Ok(SearchByName(db.categories, search))
  }

  /** `GenreViewSet.get_queryset`. */
  function GenreList(db: DbState, search: Option<string>): (r: Response<seq<Genre>>)
    ensures r.Ok?
    ensures search.None? || search.value == "" ==> r.body == db.genres
    ensures forall g :: g in r.body <==>
      g in db.genres && (search.Some? && search.value != "" ==> IContains(g.name, search.value))
    ensures forall g ::
      multiset(r.body)[g] == (if search.Some? && search.value != "" && !IContains(g.name, search.value) then 0 else multiset(db.genres)[g])
  {
    Ok(SearchByName(db.genres, search))
  }

  /** A category POST: `CategorySerializer` validation, then the insert. */
  method CategoryCreate(db: Database, name: string, slug: string) returns (resp: Response<Category>)
    requires db.Valid()
    modifies db
    ensures db.Valid()
    ensures resp.Created? || resp.BadRequest?
    ensures var v := ValidateEntry(old(db.categories), name, slug);
      && (resp.BadRequest? <==> v.Failure?)
      && (v.Failure? ==> resp == BadRequest(v.error) && db.State() == old(db.State()))
      && (v.Success? ==>
            && resp == Created(SlugEntry(old(db.nextId), v.value.name, v.value.slug))
            && db.State() == old(db.State()).(categories := old(db.categories) + [resp.body],
                                              nextId := old(db.nextId) + 1))
    ensures resp.Created? ==>
      && resp.body.name == Trim(name) && resp.body.name != ""
      && resp.body.slug == Trim(slug) && resp.body.slug != "" && ValidSlug(resp.body.slug)
      && resp.body.slug !in KeySet(old(db.categories), Slug)
  {
    var v := ValidateEntry(db.categories, name, slug);
    if v.Failure? {
      return BadRequest(v.error);
    }
    var e := db.AddCategory(v.value.name, v.value.slug);
    resp := Created(e);
  }

  /** A category DELETE by slug; its titles keep existing with no category. */
  method CategoryDestroy(db: Database, slug: string) returns (resp: Response<Category>)
    requires db.Valid()
    modifies db
    ensures db.Valid()
    ensures resp.NoContent? || resp.NotFound?
    ensures resp.NotFound? <==> slug !in KeySet(old(db.categories), Slug)
    ensures resp.NotFound? ==> db.State() == old(db.State())
    ensures resp.NoContent? ==> exists c ::
      && c in old(db.categories) && c.slug == slug
      && db.State() == CategoryDeleted(old(db.State()), c.id)
  {
    var found := FindBy(db.categories, Slug, slug);
    if found.None? {
      return NotFound;
    }
    db.DeleteCategory(found.value.id);
    resp := NoContent;
  }

  /** A genre POST: `GenreSerializer` validation, then the insert. */
  method GenreCreate(db: Database, name: string, slug: string) returns (resp: Response<Genre>)
    requires db.Valid()
    modifies db
    ensures db.Valid()
    ensures resp.Created? || resp.BadRequest?
    ensures var v := ValidateEntry(old(db.genres), name, slug);
      && (resp.BadRequest? <==> v.Failure?)
      && (v.Failure? ==> resp == BadRequest(v.error) && db.State() == old(db.State()))
      && (v.Success? ==>
            && resp == Created(SlugEntry(old(db.nextId), v.value.name, v.value.slug))
            && db.State() == old(db.State()).(genres := old(db.genres) + [resp.body],
                                              nextId := old(db.nextId) + 1))
    ensures resp.Created? ==>
      && resp.body.name == Trim(name) && resp.body.name != ""
      && resp.body.slug == Trim(slug) && resp.body.slug != "" && ValidSlug(resp.body.slug)
      && resp.body.slug !in KeySet(old(db.genres), Slug)
  {
    var v := ValidateEntry(db.genres, name, slug);
    if v.Failure? {
      return BadRequest(v.error);
    }
    var e := db.AddGenre(v.value.name, v.value.slug);
    resp := Created(e);
  }

  /** A genre DELETE by slug; it is dropped from every title's genres. */
  method GenreDestroy(db: Database, slug: string) returns (resp: Response<Genre>)
    requires db.Valid()
    modifies db
    ensures db.Valid()
    ensures resp.NoContent? || resp.NotFound?
    ensures resp.NotFound? <==> slug !in KeySet(old(db.genres), Slug)
    ensures resp.NotFound? ==> db.State() == old(db.State())
    ensures resp.NoContent? ==> exists g ::
      && g in old(db.genres) && g.slug == slug
      && db.State() == GenreDeleted(old(db.State()), g.id)
  {
    var found := FindBy(db.genres, Slug, slug);
    if found.None? {
      return NotFound;
    }
    db.DeleteGenre(found.value.id);
    resp := NoContent;
  }

  // ---------------------------------------------------------------- reviews

  /** `ReviewViewSet.get_queryset`: the reviews of the title in the URL. */
  function ReviewList(db: DbState, titleId: nat): (r: Response<seq<Review>>)
    ensures r.Ok? || r.NotFound?
    ensures r.NotFound? <==> titleId !in KeySet(db.titles, TitleId)
    ensures r.Ok? ==> forall x :: x in r.body <==> x in db.reviews && x.titleId == titleId
    ensures r.Ok? ==> forall x :: multiset(r.body)[x] == (if x.titleId == titleId then multiset(db.reviews)[x] else 0)
  {
    if FindBy(db.titles, TitleId, titleId).None? then NotFound
    else Ok(ReviewsOf(db.reviews, titleId))
  }

  /** A review POST: field validation, `ReviewSerializer.validate`, then
      `perform_create`, which looks the title up and sets the author and
      the title from the request rather than from the payload. */
  method ReviewCreate(db: Database, userId: nat, titleId: nat, text: string, score: int)
    returns (resp: Response<Review>)
    requires db.Valid()
    requires userId in KeySet(db.users, UserId)
    modifies db
    ensures db.Valid()
    ensures resp.Created? || resp.BadRequest? || resp.NotFound?
    ensures !resp.Created? ==> db.State() == old(db.State())
    ensures ReviewFieldErrors(Some(text), Some(score)) != {} ==>
      resp == BadRequest(ReviewFieldErrors(Some(text), Some(score)))
    ensures ReviewFieldErrors(Some(text), Some(score)) == {}
            && ValidateReview(Post, old(db.reviews), titleId, userId).Failure? ==>
      resp == BadRequest({DuplicateReview})
    ensures resp.NotFound? <==>
      ReviewFieldErrors(Some(text), Some(score)) == {}
      && ValidateReview(Post, old(db.reviews), titleId, userId).Success?
      && titleId !in KeySet(old(db.titles), TitleId)
    ensures resp.Created? <==>
      ReviewFieldErrors(Some(text), Some(score)) == {}
      && ValidateReview(Post, old(db.reviews), titleId, userId).Success?
      && titleId in KeySet(old(db.titles), TitleId)
    ensures resp.Created? ==>
      resp.body == Review(old(db.nextId), titleId, userId, Trim(text), score)
      && db.State() == old(db.State()).(reviews := old(db.reviews) + [resp.body],
                                        nextId := old(db.nextId) + 1)
  {
    var fieldErrors := ReviewFieldErrors(Some(text), Some(score));
    if fieldErrors != {} {
      return BadRequest(fieldErrors);
    }
    var v := ValidateReview(Post, db.reviews, titleId, userId);
    if v.Failure? {
      return BadRequest(v.error);
    }
    if FindBy(db.titles, TitleId, titleId).None? {
      return NotFound;
    }
    var r := db.AddReview(titleId, userId, Trim(text), score);
    resp := Created(r);
  }

  /** A review PATCH under a title: `get_object` looks among that title's
      reviews, the fields present are validated, and `validate` lets every
      PATCH through (see `ValidateReview`). */
  method ReviewPartialUpdate(db: Database, titleId: nat, reviewId: nat,
                             text: Option<string>, score: Option<int>)
    returns (resp: Response<Review>)
    requires db.Valid()
    modifies db
    ensures db.Valid()
    ensures resp.Ok? || resp.BadRequest? || resp.NotFound?
    ensures !resp.Ok? ==> db.State() == old(db.State())
    ensures resp.NotFound? <==>
      titleId !in KeySet(old(db.titles), TitleId)
      || !exists x :: x in old(db.reviews) && x.id == reviewId && x.titleId == titleId
    ensures titleId in KeySet(old(db.titles), TitleId)
            && (exists x :: x in old(db.reviews) && x.id == reviewId && x.titleId == titleId) ==>
      (resp.BadRequest? <==> ReviewFieldErrors(text, score) != {})
    ensures resp.BadRequest? ==> resp.errors == ReviewFieldErrors(text, score)
    ensures resp.Ok? ==> exists x ::
      && x in old(db.reviews) && x.id == reviewId && x.titleId == titleId
      && resp.body == x.(text := if text.Some? then Trim(text.value) else x.text,
                         score := if score.Some? then score.value else x.score)
      && db.State() == old(db.State()).(reviews := ReplaceBy(old(db.reviews), ReviewId, resp.body))
  {
    if FindBy(db.titles, TitleId, titleId).None? {
      return NotFound;
    }
    var found := Find(db.reviews, (x: Review) => x.id == reviewId && x.titleId == titleId);
    if found.None? {
      return NotFound;
    }
    var x := found.value;
    var fieldErrors := ReviewFieldErrors(text, score);
    if fieldErrors != {} {
      return BadRequest(fieldErrors);
    }
    var updated := x.(text := if text.Some? then Trim(text.value) else x.text,
                      score := if score.Some? then score.value else x.score);
    db.ReplaceReview(updated);
    resp := Ok(updated);
  }

  /** A review DELETE under a title, with the cascade to its comments. */
  method ReviewDestroy(db: Database, titleId: nat, reviewId: nat) returns (resp: Response<Review>)
    requires db.Valid()
    modifies db
    ensures db.Valid()
    ensures resp.NoContent? || resp.NotFound?
    ensures resp.NotFound? <==>
      titleId !in KeySet(old(db.titles), TitleId)
      || !exists x :: x in old(db.reviews) && x.id == reviewId && x.titleId == titleId
    ensures resp.NotFound? ==> db.State() == old(db.State())
    ensures resp.NoContent? ==> db.State() == ReviewDeleted(old(db.State()), reviewId)
  {
    if FindBy(db.titles, TitleId, titleId).None? {
      return NotFound;
    }
    var found := Find(db.reviews, (x: Review) => x.id == reviewId && x.titleId == titleId);
    if found.None? {
      return NotFound;
    }
    db.DeleteReview(reviewId);
    resp := NoContent;
  }

  // ---------------------------------------------------------------- comments

  /** `CommentViewSet.get_queryset`: the comments of the review in the URL.
      The title id in the URL is not consulted, so it is not a parameter. */
  function CommentList(db: DbState, reviewId: nat): (r: Response<seq<Comment>>)
    ensures r.Ok? || r.NotFound?
    ensures r.NotFound? <==> reviewId !in KeySet(db.reviews, ReviewId)
    ensures r.Ok? ==> forall c :: c in r.body <==> c in db.comments && c.reviewId == reviewId
    ensures r.Ok? ==> forall c :: multiset(r.body)[c] == (if c.reviewId == reviewId then multiset(db.comments)[c] else 0)
  {
    if FindBy(db.reviews, ReviewId, reviewId).None? then NotFound
    else Ok(Filter(db.comments, KeyIs(CommentReview, reviewId)))
  }

  /** A comment POST: field validation, then `perform_create`, which looks
      the review up and sets the author and the review from the request. */
  method CommentCreate(db: Database, userId: nat, reviewId: nat, text: string)
    returns (resp: Response<Comment>)
    requires db.Valid()
    requires userId in KeySet(db.users, UserId)
    modifies db
    ensures db.Valid()
    ensures resp.Created? || resp.BadRequest? || resp.NotFound?
    ensures !resp.Created? ==> db.State() == old(db.State())
    ensures resp.BadRequest? <==> Trim(text) == ""
    ensures resp.BadRequest? ==> resp.errors == {FieldBlank("text")}
    ensures resp.NotFound? <==> Trim(text) != "" && reviewId !in KeySet(old(db.reviews), ReviewId)
    ensures resp.Created? ==>
      resp.body == Comment(old(db.nextId), reviewId, userId, Trim(text))
      && db.State() == old(db.State()).(comments := old(db.comments) + [resp.body],
                                        nextId := old(db.nextId) + 1)
  {
    var fieldErrors := CommentFieldErrors(Some(text));
    if fieldErrors != {} {
      return BadRequest(fieldErrors);
    }
    if FindBy(db.reviews, ReviewId, reviewId).None? {
      return NotFound;
    }
    var c := db.AddComment(reviewId, userId, Trim(text));
    resp := Created(c);
  }

  /** A comment PATCH under a review. */
  method CommentPartialUpdate(db: Database, reviewId: nat, commentId: nat, text: Option<string>)
    returns (resp: Response<Comment>)
    requires db.Valid()
    modifies db
    ensures db.Valid()
    ensures resp.Ok? || resp.BadRequest? || resp.NotFound?
    ensures !resp.Ok? ==> db.State() == old(db.State())
    ensures resp.NotFound? <==>
      reviewId !in KeySet(old(db.reviews), ReviewId)
      || !exists c :: c in old(db.comments) && c.id == commentId && c.reviewId == reviewId
    ensures reviewId in KeySet(old(db.reviews), ReviewId)
            && (exists c :: c in old(db.comments) && c.id == commentId && c.reviewId == reviewId) ==>
      (resp.BadRequest? <==> text.Some? && Trim(text.value) == "")
    ensures resp.BadRequest? ==> resp.errors == {FieldBlank("text")} && text.Some? && Trim(text.value) == ""
    ensures resp.Ok? ==> exists c ::
      && c in old(db.comments) && c.id == commentId && c.reviewId == reviewId
      && resp.body == c.(text := if text.Some? then Trim(text.value) else c.text)
      && db.State() == old(db.State()).(comments := ReplaceBy(old(db.comments), CommentId, resp.body))
  {
    if FindBy(db.reviews, ReviewId, reviewId).None? {
      return NotFound;
    }
    var found := Find(db.comments, (c: Comment) => c.id == commentId && c.reviewId == reviewId);
    if found.None? {
      return NotFound;
    }
    var c := found.value;
    var fieldErrors := CommentFieldErrors(text);
    if fieldErrors != {} {
      return BadRequest(fieldErrors);
    }
    var updated := c.(text := if text.Some? then Trim(text.value) else c.text);
    db.ReplaceComment(updated);
    resp := Ok(updated);
  }

  /** A comment DELETE under a review. */
  method CommentDestroy(db: Database, reviewId: nat, commentId: nat) returns (resp: Response<Comment>)
    requires db.Valid()
    modifies db
    ensures db.Valid()
    ensures resp.NoContent? || resp.NotFound?
    ensures resp.NotFound? <==>
      reviewId !in KeySet(old(db.reviews), ReviewId)
      || !exists c :: c in old(db.comments) && c.id == commentId && c.reviewId == reviewId
    ensures resp.NotFound? ==> db.State() == old(db.State())
    ensures resp.NoContent? ==> db.State() == CommentDeleted(old(db.State()), commentId)
  {
    if FindBy(db.reviews, ReviewId, reviewId).None? {
      return NotFound;
    }
    var found := Find(db.comments, (c: Comment) => c.id == commentId && c.reviewId == reviewId);
    if found.None? {
      return NotFound;
    }
    db.DeleteComment(commentId);
    resp := NoContent;
  }
}
