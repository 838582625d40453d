/** The validation of api/serializers.py: the field validators, the
    object-level `validate` methods and `TitleCreateSerializer.create`.
    Checks that the serializers inherit from the libraries (the username
    pattern, the e-mail format, `max_length`) are parameters. */
module Serializers {
  import opened Wrappers
  import opened Text
  import opened Tables
  import opened Models

  /** A validation error, one per message the serializers and views can raise. */
  datatype ApiError =
    | FieldBlank(field: string)  // allow_blank=False on a CharField: nothing is left after trimming
    | UsernameIsMe          // not_me_validator
    | UsernameInvalid       // username pattern or length
    | EmailInvalid          // e-mail format or length
    | UsernameTaken         // SignUpSerializer.validate
    | EmailTaken            // SignUpSerializer.validate
    | UsernameNotUnique     // unique=True on CustomUser.username
    | EmailNotUnique        // unique=True on CustomUser.email
    | CodeFieldInvalid      // UserGetTokenSerializer.confirmation_code
    | BadConfirmationCode   // GetTokenViewSet.create
    | YearInvalid           // the lower bound 0 of the PositiveIntegerField Title.year
    | YearInFuture          // validate_year
    | GenreDoesNotExist     // validate_genre, or a genre slug that resolves to nothing
    | CategoryDoesNotExist  // validate_category, or a category slug that resolves to nothing
    | NameTooLong           // TitleViewSet.partial_update
    | ScoreOutOfRange       // MinValueValidator / MaxValueValidator on Review.score
    | DuplicateReview       // ReviewSerializer.validate
    | SlugInvalid           // the slug pattern of a SlugField
    | SlugNotUnique         // unique=True on Category.slug / Genre.slug
  {
    /** The key under which the error appears in the 400 response body. */
    function Key(): string
    {
      match this
      case FieldBlank(field) => field
      case UsernameIsMe | UsernameInvalid | UsernameNotUnique => "username"
      case EmailInvalid | EmailNotUnique => "email"
      case UsernameTaken | EmailTaken | DuplicateReview => "non_field_errors"
      case CodeFieldInvalid | BadConfirmationCode => "confirmation_code"
      case YearInvalid | YearInFuture => "year"
      case GenreDoesNotExist => "genre"
      case CategoryDoesNotExist => "category"
      case NameTooLong => "name"
      case ScoreOutOfRange => "score"
      case SlugInvalid | SlugNotUnique => "slug"
    }
  }

  /** A `CharField` with `allow_blank=False`: the input is trimmed, and a
      value with nothing left is refused before any validator of the field runs. */
  function RequiredText(field: string, value: string): (r: Result<string, set<ApiError>>)
    ensures r.Success? <==> exists k :: 0 <= k < |value| && !IsSpace(value[k])
    ensures r.Success? ==> r.value == Trim(value) && r.value != ""
    ensures r.Failure? ==> r.error == {FieldBlank(field)}
  {
    var v := Trim(value);
    if v == "" then Failure({FieldBlank(field)}) else Success(v)
  }

  /** A field that may be left out of a PATCH: trimmed when present. */
  function TrimOpt(value: Option<string>): (r: Option<string>)
    ensures r.Some? <==> value.Some?
    ensures r.Some? ==> r.value == Trim(value.value)
  {
    if value.Some? then Some(Trim(value.value)) else None
  }

  /** `not_me_validator`. */
  function NotMe(value: string): (r: Result<string, set<ApiError>>)
    ensures r.Failure? <==> value in {"me", "Me", "mE", "ME"}
    ensures r.Failure? ==> r.error == {UsernameIsMe}
    ensures r.Success? ==> r.value == value
  {
    IsMeCasings(value);
    if IsMe(value) then Failure({UsernameIsMe}) else Success(value)
  }

  // ---------------------------------------------------------------- sign-up

  datatype SignupData = SignupData(username: string, email: string)

  predicate PairExists(users: seq<User>, username: string, email: string)
  {
    exists u :: u in users && u.username == username && u.email == email
  }

  predicate UsernameInUse(users: seq<User>, username: string)
  {
    exists u :: u in users && u.username == username
  }

  predicate EmailInUse(users: seq<User>, email: string)
  {
    exists u :: u in users && u.email == email
  }

  /** The field-level errors of `SignUpSerializer`: each field is trimmed,
      a blank one reports only that, and otherwise every validator of the
      field runs and all their errors are reported together. */
  function SignupFieldErrors(username: string, email: string,
                             usernameOk: string -> bool, emailOk: string -> bool): (errs: set<ApiError>)
    ensures errs == {} <==>
      && Trim(username) != "" && Trim(username) !in {"me", "Me", "mE", "ME"} && usernameOk(Trim(username))
      && Trim(email) != "" && emailOk(Trim(email))
    ensures FieldBlank("username") in errs <==> Trim(username) == ""
    ensures Trim(username) == "" ==> UsernameIsMe !in errs && UsernameInvalid !in errs
    ensures errs <= {FieldBlank("username"), UsernameIsMe, UsernameInvalid, FieldBlank("email"), EmailInvalid}
  {
    UsernameErrors(username, usernameOk) + EmailErrors(email, emailOk)
  }

  /** The errors of the sign-up `username`: blank, or else every failing validator. */
  function UsernameErrors(username: string, usernameOk: string -> bool): (errs: set<ApiError>)
    ensures errs == {} <==>
      Trim(username) != "" && Trim(username) !in {"me", "Me", "mE", "ME"} && usernameOk(Trim(username))
    ensures FieldBlank("username") in errs <==> Trim(username) == ""
    ensures Trim(username) == "" ==> errs == {FieldBlank("username")}
    ensures errs <= {FieldBlank("username"), UsernameIsMe, UsernameInvalid}
  {
    var name := RequiredText("username", username);
    if name.Failure? then name.error
    else ErrorsOf(NotMe(name.value)) + (if usernameOk(name.value) then {} else {UsernameInvalid})
  }

  /** The errors of the sign-up `email`: blank, or else not an e-mail address. */
  function EmailErrors(email: string, emailOk: string -> bool): (errs: set<ApiError>)
    ensures errs == {} <==> Trim(email) != "" && emailOk(Trim(email))
    ensures FieldBlank("email") in errs <==> Trim(email) == ""
    ensures errs <= {FieldBlank("email"), EmailInvalid}
  {
    var mail := RequiredText("email", email);
    if mail.Failure? then mail.error else if emailOk(mail.value) then {} else {EmailInvalid}
  }

  /** `SignUpSerializer.is_valid()`: the field validators, then `validate`,
      which runs only when every field passed, on the trimmed values. */
  function ValidateSignup(users: seq<User>, username: string, email: string,
                          usernameOk: string -> bool, emailOk: string -> bool)
    : (r: Result<SignupData, set<ApiError>>)
    ensures Trim(username) in {"me", "Me", "mE", "ME"} ==> r.Failure? && UsernameIsMe in r.error
    ensures r.Success? ==> r.value == SignupData(Trim(username), Trim(email))
    ensures r.Success? <==>
      SignupFieldErrors(username, email, usernameOk, emailOk) == {}
      && (PairExists(users, Trim(username), Trim(email))
          || (!UsernameInUse(users, Trim(username)) && !EmailInUse(users, Trim(email))))
    ensures SignupFieldErrors(username, email, usernameOk, emailOk) != {} ==>
      r == Failure(SignupFieldErrors(username, email, usernameOk, emailOk))
    ensures SignupFieldErrors(username, email, usernameOk, emailOk) == {}
            && !PairExists(users, Trim(username), Trim(email)) && UsernameInUse(users, Trim(username))
            ==> r == Failure({UsernameTaken})
    ensures SignupFieldErrors(username, email, usernameOk, emailOk) == {}
            && !PairExists(users, Trim(username), Trim(email)) && !UsernameInUse(users, Trim(username))
            && EmailInUse(users, Trim(email))
            ==> r == Failure({EmailTaken})
  {
    var fieldErrors := SignupFieldErrors(username, email, usernameOk, emailOk);
    var name := Trim(username);
    var mail := Trim(email);
    if fieldErrors != {} then Failure(fieldErrors)
    else if PairExists(users, name, mail) then Success(SignupData(name, mail))
    else if UsernameInUse(users, name) then Failure({UsernameTaken})
    else if EmailInUse(users, mail) then Failure({EmailTaken})
    else Success(SignupData(name, mail))
  }

  /** Surrounding whitespace does not get "me" past sign-up: the field is
      trimmed before `not_me_validator` sees it. */
  lemma PaddedMeRefused(users: seq<User>, email: string, usernameOk: string -> bool, emailOk: string -> bool)
    ensures var r := ValidateSignup(users, " me\n", email, usernameOk, emailOk);
      r.Failure? && UsernameIsMe in r.error
  {
    assert LeadingSpaces(" me\n") == 1 by {
      assert " me\n"[1..] == "me\n";
    }
    assert TrailingSpaces(" me\n") == 1 by {
      assert " me\n"[..3] == " me";
    }
    assert " me\n"[1..3] == "me";
    assert Trim(" me\n") == "me";
  }

  /** A sign-up that passes validation either names an existing account
      exactly or clashes with no account at all, so `get_or_create` can
      neither create a duplicate nor be asked to. */
  lemma SignupLeavesNoConflict(users: seq<User>, username: string, email: string,
                               usernameOk: string -> bool, emailOk: string -> bool)
    requires ValidateSignup(users, username, email, usernameOk, emailOk).Success?
    requires UniqueBy(users, Username)
    ensures var d := ValidateSignup(users, username, email, usernameOk, emailOk).value;
      PairExists(users, d.username, d.email)
      || forall v :: v in users ==> v.username != d.username && v.email != d.email
    ensures var d := ValidateSignup(users, username, email, usernameOk, emailOk).value;
      forall v :: v in users && v.username == d.username ==> v.email == d.email
  {
    var d := ValidateSignup(users, username, email, usernameOk, emailOk).value;
    if PairExists(users, d.username, d.email) {
      var u :| u in users && u.username == d.username && u.email == d.email;
      forall v | v in users && v.username == d.username ensures v.email == d.email {
        assert Username(v) == Username(u);
      }
    }
  }

  // ---------------------------------------------------------------- users

  /** The fields a PATCH on a user may carry; an absent field stays as it is. */
  datatype UserPatch = UserPatch(
    username: Option<string>,
    email: Option<string>,
    firstName: Option<string>,
    lastName: Option<string>,
    bio: Option<string>,
    role: Option<Role>)

  /** The patch as the serializer's fields hand it on: every text field trimmed. */
  function CleanUserPatch(p: UserPatch): UserPatch
  {
    UserPatch(TrimOpt(p.username), TrimOpt(p.email), TrimOpt(p.firstName),
              TrimOpt(p.lastName), TrimOpt(p.bio), p.role)
  }

  /** A trimmed, present username or e-mail that another user than the instance already holds. */
  predicate TakenByOther(users: seq<User>, instanceId: nat, column: User -> string, value: string)
  {
    exists v :: v in users && v.id != instanceId && column(v) == value
  }

  /** The errors of the `username` or `email` field of `UsersSerializer`: a
      blank value reports only that; otherwise the format validator and the
      uniqueness validator both run. */
  function UniqueFieldErrors(users: seq<User>, instanceId: nat, field: string, column: User -> string,
                             value: Option<string>, ok: string -> bool, invalid: ApiError, taken: ApiError)
    : set<ApiError>
  {
    if value.None? then {}
    else match RequiredText(field, value.value)
      case Failure(e) => e
      case Success(v) =>
        (if ok(v) then {} else {invalid})
        + (if TakenByOther(users, instanceId, column, v) then {taken} else {})
  }

  /** `UsersSerializer(user, data, partial=True).is_valid()`: only the fields
      present are checked; the model's username validator, the e-mail
      format and the two uniqueness checks, which leave the instance itself out. */
  function ValidateUserPatch(users: seq<User>, instanceId: nat, p: UserPatch,
                             usernameOk: string -> bool, emailOk: string -> bool)
    : (r: Result<UserPatch, set<ApiError>>)
    ensures r.Success? <==>
      && (p.username.Some? ==>
            Trim(p.username.value) != "" && usernameOk(Trim(p.username.value))
            && forall v :: v in users && v.id != instanceId ==> v.username != Trim(p.username.value))
      && (p.email.Some? ==>
            Trim(p.email.value) != "" && emailOk(Trim(p.email.value))
            && forall v :: v in users && v.id != instanceId ==> v.email != Trim(p.email.value))
    ensures r.Success? ==> r.value == CleanUserPatch(p)
    ensures p.username.Some? && Trim(p.username.value) == "" ==>
      r.Failure? && FieldBlank("username") in r.error && UsernameNotUnique !in r.error
    ensures p.username.Some? && Trim(p.username.value) != ""
            && (exists v :: v in users && v.id != instanceId && v.username == Trim(p.username.value))
            ==> r.Failure? && UsernameNotUnique in r.error
    ensures p.email.Some? && Trim(p.email.value) != ""
            && (exists v :: v in users && v.id != instanceId && v.email == Trim(p.email.value))
            ==> r.Failure? && EmailNotUnique in r.error
  {
    var errs := UniqueFieldErrors(users, instanceId, "username", Username, p.username,
                                  usernameOk, UsernameInvalid, UsernameNotUnique)
              + UniqueFieldErrors(users, instanceId, "email", Email, p.email,
                                  emailOk, EmailInvalid, EmailNotUnique);
    if errs == {} then Success(CleanUserPatch(p)) else Failure(errs)
  }

  /** `serializer.save()` on a user: every field the patch carries is set,
      and the id and the two account flags, which the serializer does not
      expose, stay. */
  function ApplyUserPatch(u: User, p: UserPatch): (v: User)
    ensures v.id == u.id && v.isSuperuser == u.isSuperuser && v.isStaff == u.isStaff
    ensures v.username == (if p.username.Some? then p.username.value else u.username)
    ensures v.email == (if p.email.Some? then p.email.value else u.email)
    ensures v.firstName == (if p.firstName.Some? then p.firstName.value else u.firstName)
    ensures v.lastName == (if p.lastName.Some? then p.lastName.value else u.lastName)
    ensures v.bio == (if p.bio.Some? then p.bio.value else u.bio)
    ensures v.role == (if p.role.Some? then p.role.value else u.role)
  {
    u.(username := if p.username.Some? then p.username.value else u.username,
       email := if p.email.Some? then p.email.value else u.email,
       firstName := if p.firstName.Some? then p.firstName.value else u.firstName,
       lastName := if p.lastName.Some? then p.lastName.value else u.lastName,
       bio := if p.bio.Some? then p.bio.value else u.bio,
       role := if p.role.Some? then p.role.value else u.role)
  }

  /** A user patch that passed validation leaves no other user with the
      new username or e-mail, so saving it keeps both columns unique. */
  lemma ValidatedUserPatchStaysUnique(users: seq<User>, u: User, p: UserPatch,
                                      usernameOk: string -> bool, emailOk: string -> bool)
    requires u in users
    requires UniqueBy(users, Username) && UniqueBy(users, Email)
    requires ValidateUserPatch(users, u.id, p, usernameOk, emailOk).Success?
    ensures var q := ValidateUserPatch(users, u.id, p, usernameOk, emailOk).value;
      forall w :: w in users && w.id != u.id ==>
        w.username != ApplyUserPatch(u, q).username && w.email != ApplyUserPatch(u, q).email
  {
    var q := ValidateUserPatch(users, u.id, p, usernameOk, emailOk).value;
    forall w | w in users && w.id != u.id
      ensures w.username != ApplyUserPatch(u, q).username && w.email != ApplyUserPatch(u, q).email
    {
      assert Username(w) == Username(u) ==> w == u;
      assert Email(w) == Email(u) ==> w == u;
    }
  }

  /** `UsersSerializer` has no `not_me_validator`: a PATCH by an admin may
      rename a user to "me", which sign-up refuses. */
  lemma UserPatchAllowsMe(users: seq<User>, instanceId: nat, usernameOk: string -> bool, emailOk: string -> bool)
    requires usernameOk("me")
    requires forall v :: v in users && v.id != instanceId ==> v.username != "me"
    ensures ValidateUserPatch(users, instanceId, UserPatch(Some("me"), None, None, None, None, None),
                              usernameOk, emailOk).Success?
    ensures NotMe("me").Failure?
  {
    TrimKeeps("me");
  }

  // ---------------------------------------------------------------- reviews

  datatype HttpMethod = Post | Patch

  /** The score validators of `Review.score`, as `ReviewSerializer` inherits them. */
  function ValidateScore(score: int): (r: Result<int, set<ApiError>>)
    ensures r.Success? <==> ScoreInRange(score)
    ensures r.Success? ==> r.value == score
    ensures r.Failure? ==> r.error == {ScoreOutOfRange}
  {
    if MIN_SCORE <= score && score <= MAX_SCORE then Success(score) else Failure({ScoreOutOfRange})
  }

  /** The field validators `ReviewSerializer` inherits from `Review`: a text
      that is not blank once trimmed and a score within bounds; an absent
      field (a PATCH) is not checked. */
  function ReviewFieldErrors(text: Option<string>, score: Option<int>): (errs: set<ApiError>)
    ensures errs == {} <==>
      (text.Some? ==> Trim(text.value) != "") && (score.Some? ==> ScoreInRange(score.value))
    ensures ScoreOutOfRange in errs <==> score.Some? && !ScoreInRange(score.value)
    ensures FieldBlank("text") in errs <==> text.Some? && Trim(text.value) == ""
    ensures errs <= {FieldBlank("text"), ScoreOutOfRange}
  {
    (if text.Some? then ErrorsOf(RequiredText("text", text.value)) else {})
    + (if score.Some? then ErrorsOf(ValidateScore(score.value)) else {})
  }

  /** The field validator `CommentSerializer` inherits from `Comment`: a
      text that is not blank once trimmed. */
  function CommentFieldErrors(text: Option<string>): (errs: set<ApiError>)
    ensures errs == {} <==> (text.Some? ==> Trim(text.value) != "")
    ensures errs != {} ==> errs == {FieldBlank("text")}
  {
    if text.Some? then ErrorsOf(RequiredText("text", text.value)) else {}
  }

  /** `ReviewSerializer.validate`: a second review of one title by one author
      is refused, and only when the request creates a review. */
  function ValidateReview(verb: HttpMethod, reviews: seq<Review>, titleId: nat, authorId: nat)
    : (r: Result<(), set<ApiError>>)
    ensures r.Failure? <==>
      verb == Post && exists x :: x in reviews && x.titleId == titleId && x.authorId == authorId
    ensures r.Failure? ==> r.error == {DuplicateReview}
  {
    if verb == Post && exists x :: x in reviews && x.titleId == titleId && x.authorId == authorId
    then Failure({DuplicateReview})
    else Success(())
  }

  /** Adding a review that passed `ValidateReview` on a POST keeps at most
      one review per (title, author). */
  lemma ValidatedReviewStaysUnique(reviews: seq<Review>, r: Review)
    requires UniqueBy(reviews, ReviewPair)
    requires ValidateReview(Post, reviews, r.titleId, r.authorId).Success?
    ensures UniqueBy(reviews + [r], ReviewPair)
  {
    forall x, y | x in reviews + [r] && y in reviews + [r] && ReviewPair(x) == ReviewPair(y)
      ensures x == y
    {
      if !(x in reviews && y in reviews) {
        assert x == r && y == r;
      }
    }
  }

  // ---------------------------------------------------------------- titles

  /** The `year` field: the lower bound 0 of a `PositiveIntegerField`, then
      `validate_year`, which runs only when that passed, with the clock read
      made a parameter. */
  function ValidateYear(year: int, currentYear: int): (r: Result<nat, set<ApiError>>)
    ensures r.Success? <==> 0 <= year <= currentYear
    ensures r.Success? ==> r.value == year
    ensures r.Failure? ==> r.error == (if year < 0 then {YearInvalid} else {YearInFuture})
    ensures r.Failure? ==> (YearInvalid in r.error <==> year < 0) && (YearInFuture in r.error <==> year >= 0)
  {
    if year < 0 then Failure({YearInvalid})
    else if year > currentYear then Failure({YearInFuture})
    else Success(year)
  }

  /** The ids of the rows whose slug is one of `slugs`. */
  function SlugIds(entries: seq<SlugEntry>, slugs: seq<string>): set<nat>
  {
    set e | e in entries && e.slug in slugs :: e.id
  }

  /** A `SlugRelatedField` lookup: the id of the row with this slug. */
  function ResolveSlug(entries: seq<SlugEntry>, slug: string): (r: Option<nat>)
    ensures r.Some? <==> slug in KeySet(entries, Slug)
    ensures r.Some? ==> exists e :: e in entries && e.slug == slug && e.id == r.value
    ensures UniqueBy(entries, Slug) ==> forall e :: e in entries && e.slug == slug ==> r == Some(e.id)
  {
    match Find(entries, KeyIs(Slug, slug))
    case Some(e) =>
      assert forall x :: x in entries && x.slug == slug ==> Slug(x) == Slug(e);
      Some(e.id)
    case None =>
      assert forall e :: e in entries ==> e.slug != slug;
      None
  }

  /** A many-valued `SlugRelatedField` lookup: the ids of the rows with these
      slugs, or nothing if one of them names no row. */
  function ResolveSlugs(entries: seq<SlugEntry>, slugs: seq<string>): (r: Option<set<nat>>)
    ensures r.Some? <==> forall s :: s in slugs ==> s in KeySet(entries, Slug)
    ensures r.Some? ==> r.value <= SlugIds(entries, slugs) && r.value <= KeySet(entries, EntryId)
    ensures r.Some? && UniqueBy(entries, Slug) ==> r.value == SlugIds(entries, slugs)
  {
    if slugs == [] then Some({})
    else
      var head := ResolveSlug(entries, slugs[0]);
      var tail := ResolveSlugs(entries, slugs[1..]);
      assert forall s :: s in slugs <==> s == slugs[0] || s in slugs[1..];
      if head.None? || tail.None? then None
      else
        SlugIdsCons(entries, slugs);
        Some({head.value} + tail.value)
  }

  /** The ids of a list of slugs are those of its first slug and those of the rest. */
  lemma SlugIdsCons(entries: seq<SlugEntry>, slugs: seq<string>)
    requires slugs != []
    ensures SlugIds(entries, slugs) == SlugIds(entries, [slugs[0]]) + SlugIds(entries, slugs[1..])
    ensures forall e :: e in entries && e.slug == slugs[0] ==> e.id in SlugIds(entries, [slugs[0]])
    ensures forall i :: i in SlugIds(entries, [slugs[0]]) ==>
      exists e :: e in entries && e.slug == slugs[0] && e.id == i
  {
    assert forall s :: s in slugs <==> s == slugs[0] || s in slugs[1..];
    forall e | e in entries && e.slug == slugs[0] ensures e.id in SlugIds(entries, [slugs[0]]) {
      assert e.slug in [slugs[0]];
    }
  }

  /** The `genre` field: the slugs are resolved, and `validate_genre` refuses a missing value. */
  function ValidateGenre(genres: seq<Genre>, slugs: Option<seq<string>>): (r: Result<set<nat>, set<ApiError>>)
    ensures r.Success? <==> slugs.Some? && forall s :: s in slugs.value ==> s in KeySet(genres, Slug)
    ensures r.Failure? ==> r.error == {GenreDoesNotExist}
    ensures r.Success? ==> r.value <= SlugIds(genres, slugs.value) && r.value <= KeySet(genres, EntryId)
    ensures r.Success? && UniqueBy(genres, Slug) ==> r.value == SlugIds(genres, slugs.value)
  {
    if slugs.None? then Failure({GenreDoesNotExist})
    else match ResolveSlugs(genres, slugs.value)
      case None => Failure({GenreDoesNotExist})
      case Some(ids) => Success(ids)
  }

  /** The `category` field: the slug is resolved, and `validate_category` refuses a missing value. */
  function ValidateCategory(categories: seq<Category>, slug: Option<string>): (r: Result<nat, set<ApiError>>)
    ensures r.Success? <==> slug.Some? && slug.value in KeySet(categories, Slug)
    ensures r.Failure? ==> r.error == {CategoryDoesNotExist}
    ensures r.Success? ==> exists c :: c in categories && c.slug == slug.value && c.id == r.value
    ensures r.Success? && UniqueBy(categories, Slug) ==>
      forall c :: c in categories && c.slug == slug.value ==> r.value == c.id
  {
    if slug.None? then Failure({CategoryDoesNotExist})
    else match ResolveSlug(categories, slug.value)
      case None => Failure({CategoryDoesNotExist})
      case Some(id) => Success(id)
  }

  /** The body of a title POST; `genre` and `category` are slugs. */
  datatype TitleData = TitleData(
    name: string,
    year: int,
    description: string,
    genre: Option<seq<string>>,
    category: Option<string>)

  /** A title POST after validation: text trimmed, slugs resolved to ids. */
  datatype ValidTitle = ValidTitle(
    name: string,
    year: nat,
    description: string,
    genres: set<nat>,
    category: nat)

  /** The errors of one field, or none. */
  function ErrorsOf<T>(r: Result<T, set<ApiError>>): set<ApiError>
  {
    if r.Failure? then r.error else {}
  }

  /** The errors of the fields of a title POST: every field is checked. */
  function TitleErrors(db: DbState, data: TitleData, currentYear: int): (errs: set<ApiError>)
    ensures errs == {} <==>
      && Trim(data.name) != ""
      && 0 <= data.year <= currentYear
      && ValidateGenre(db.genres, data.genre).Success?
      && ValidateCategory(db.categories, data.category).Success?
    ensures FieldBlank("name") in errs <==> Trim(data.name) == ""
    ensures YearInvalid in errs <==> data.year < 0
    ensures YearInFuture in errs <==> 0 <= data.year && currentYear < data.year
    ensures GenreDoesNotExist in errs <==> ValidateGenre(db.genres, data.genre).Failure?
    ensures CategoryDoesNotExist in errs <==> ValidateCategory(db.categories, data.category).Failure?
    ensures errs <= {FieldBlank("name"), YearInvalid, YearInFuture, GenreDoesNotExist, CategoryDoesNotExist}
  {
    NameErrors(data.name)
    + YearErrors(data.year, currentYear)
    + GenreErrors(db.genres, data.genre)
    + CategoryErrors(db.categories, data.category)
  }

  /** `TitleCreateSerializer.is_valid()` on a POST: the errors of every field
      are collected. The name is required and trimmed, the description
      (`blank=True`) only trimmed. */
  function ValidateTitle(db: DbState, data: TitleData, currentYear: int): (r: Result<ValidTitle, set<ApiError>>)
    ensures r.Success? <==> TitleErrors(db, data, currentYear) == {}
    ensures r.Failure? ==> r.error == TitleErrors(db, data, currentYear)
    ensures r.Success? ==>
      && r.value.name == Trim(data.name) && r.value.year == data.year
      && r.value.description == Trim(data.description)
      && r.value.genres == ValidateGenre(db.genres, data.genre).value
      && r.value.category == ValidateCategory(db.categories, data.category).value
  {
    var errors := TitleErrors(db, data, currentYear);
    if errors == {} then
      Success(ValidTitle(Trim(data.name), ValidateYear(data.year, currentYear).value, Trim(data.description),
                         ValidateGenre(db.genres, data.genre).value,
                         ValidateCategory(db.categories, data.category).value))
    else
      Failure(errors)
  }

  /** The body of a title PATCH; an absent field stays as it is. */
  datatype TitlePatch = TitlePatch(
    name: Option<string>,
    year: Option<int>,
    description: Option<string>,
    genre: Option<seq<string>>,
    category: Option<string>)

  /** A title PATCH after validation: text trimmed, slugs resolved to ids. */
  datatype ValidTitlePatch = ValidTitlePatch(
    name: Option<string>,
    year: Option<nat>,
    description: Option<string>,
    genres: Option<set<nat>>,
    category: Option<nat>)

  /** The errors of the fields a title PATCH carries; an absent field has none. */
  function TitlePatchErrors(db: DbState, p: TitlePatch, currentYear: int): (errs: set<ApiError>)
    ensures errs == {} <==>
      && (p.name.Some? ==> Trim(p.name.value) != "")
      && (p.year.Some? ==> 0 <= p.year.value <= currentYear)
      && (p.genre.Some? ==> ValidateGenre(db.genres, p.genre).Success?)
      && (p.category.Some? ==> ValidateCategory(db.categories, p.category).Success?)
    ensures FieldBlank("name") in errs <==> p.name.Some? && Trim(p.name.value) == ""
    ensures YearInvalid in errs <==> p.year.Some? && p.year.value < 0
    ensures YearInFuture in errs <==> p.year.Some? && 0 <= p.year.value && currentYear < p.year.value
    ensures GenreDoesNotExist in errs <==> p.genre.Some? && ValidateGenre(db.genres, p.genre).Failure?
    ensures CategoryDoesNotExist in errs <==>
      p.category.Some? && ValidateCategory(db.categories, p.category).Failure?
    ensures errs <= {FieldBlank("name"), YearInvalid, YearInFuture, GenreDoesNotExist, CategoryDoesNotExist}
  {
    PatchValueErrors(p, currentYear) + PatchSlugErrors(db, p)
  }

  /** The errors of the `name` and `year` a title PATCH carries. */
  function PatchValueErrors(p: TitlePatch, currentYear: int): (errs: set<ApiError>)
    ensures errs == {} <==>
      (p.name.Some? ==> Trim(p.name.value) != "") && (p.year.Some? ==> 0 <= p.year.value <= currentYear)
    ensures FieldBlank("name") in errs <==> p.name.Some? && Trim(p.name.value) == ""
    ensures YearInvalid in errs <==> p.year.Some? && p.year.value < 0
    ensures YearInFuture in errs <==> p.year.Some? && 0 <= p.year.value && currentYear < p.year.value
    ensures errs <= {FieldBlank("name"), YearInvalid, YearInFuture}
  {
    (if p.name.Some? then NameErrors(p.name.value) else {})
    + (if p.year.Some? then YearErrors(p.year.value, currentYear) else {})
  }

  /** The errors of the genre and category slugs a title PATCH carries. */
  function PatchSlugErrors(db: DbState, p: TitlePatch): (errs: set<ApiError>)
    ensures errs == {} <==>
      && (p.genre.Some? ==> ValidateGenre(db.genres, p.genre).Success?)
      && (p.category.Some? ==> ValidateCategory(db.categories, p.category).Success?)
    ensures GenreDoesNotExist in errs <==> p.genre.Some? && ValidateGenre(db.genres, p.genre).Failure?
    ensures CategoryDoesNotExist in errs <==>
      p.category.Some? && ValidateCategory(db.categories, p.category).Failure?
    ensures errs <= {GenreDoesNotExist, CategoryDoesNotExist}
  {
    (if p.genre.Some? then GenreErrors(db.genres, p.genre) else {})
    + (if p.category.Some? then CategoryErrors(db.categories, p.category) else {})
  }

  /** The errors of the required `name` field of a title. */
  function NameErrors(name: string): (errs: set<ApiError>)
    ensures errs == {} <==> Trim(name) != ""
    ensures FieldBlank("name") in errs <==> Trim(name) == ""
    ensures errs <= {FieldBlank("name")}
  {
    ErrorsOf(RequiredText("name", name))
  }

  /** The errors `ValidateYear` reports, one at most. */
  function YearErrors(year: int, currentYear: int): (errs: set<ApiError>)
    ensures errs == {} <==> 0 <= year <= currentYear
    ensures YearInvalid in errs <==> year < 0
    ensures YearInFuture in errs <==> 0 <= year && currentYear < year
    ensures errs <= {YearInvalid, YearInFuture}
  {
    ErrorsOf(ValidateYear(year, currentYear))
  }

  /** The errors of the `genre` slugs, one at most. */
  function GenreErrors(genres: seq<Genre>, slugs: Option<seq<string>>): (errs: set<ApiError>)
    ensures errs == {} <==> ValidateGenre(genres, slugs).Success?
    ensures GenreDoesNotExist in errs <==> ValidateGenre(genres, slugs).Failure?
    ensures errs <= {GenreDoesNotExist}
  {
    ErrorsOf(ValidateGenre(genres, slugs))
  }

  /** The errors of the `category` slug, one at most. */
  function CategoryErrors(categories: seq<Category>, slug: Option<string>): (errs: set<ApiError>)
    ensures errs == {} <==> ValidateCategory(categories, slug).Success?
    ensures CategoryDoesNotExist in errs <==> ValidateCategory(categories, slug).Failure?
    ensures errs <= {CategoryDoesNotExist}
  {
    ErrorsOf(ValidateCategory(categories, slug))
  }

  /** `TitleCreateSerializer(instance, data, partial=True).is_valid()`: only
      the fields present are validated, and their errors are collected. */
  function ValidateTitlePatch(db: DbState, p: TitlePatch, currentYear: int)
    : (r: Result<ValidTitlePatch, set<ApiError>>)
    ensures r.Success? <==> TitlePatchErrors(db, p, currentYear) == {}
    ensures r.Failure? ==> r.error == TitlePatchErrors(db, p, currentYear)
    ensures r.Success? ==>
      && r.value.name == TrimOpt(p.name) && r.value.description == TrimOpt(p.description)
      && (r.value.year.Some? <==> p.year.Some?)
      && (r.value.year.Some? ==> r.value.year.value == p.year.value)
      && (r.value.genres.Some? <==> p.genre.Some?)
      && (r.value.genres.Some? ==> r.value.genres.value == ValidateGenre(db.genres, p.genre).value)
      && (r.value.category.Some? <==> p.category.Some?)
      && (r.value.category.Some? ==> r.value.category.value == ValidateCategory(db.categories, p.category).value)
  {
    var errors := TitlePatchErrors(db, p, currentYear);
    if errors == {} then
      Success(ValidTitlePatch(
        TrimOpt(p.name),
        if p.year.Some? then Some(ValidateYear(p.year.value, currentYear).value) else None,
        TrimOpt(p.description),
        if p.genre.Some? then Some(ValidateGenre(db.genres, p.genre).value) else None,
        if p.category.Some? then Some(ValidateCategory(db.categories, p.category).value) else None))
    else
      Failure(errors)
  }

  /** `serializer.save()` on a title: every field the patch carries is set,
      the genre relation is replaced by the new set. */
  function ApplyTitlePatch(t: Title, p: ValidTitlePatch): (u: Title)
    ensures u.id == t.id
    ensures u.name == (if p.name.Some? then p.name.value else t.name)
    ensures u.year == (if p.year.Some? then p.year.value else t.year)
    ensures u.description == (if p.description.Some? then p.description.value else t.description)
    ensures u.genres == (if p.genres.Some? then p.genres.value else t.genres)
    ensures u.category == (if p.category.Some? then p.category else t.category)
  {
    t.(name := if p.name.Some? then p.name.value else t.name,
       year := if p.year.Some? then p.year.value else t.year,
       description := if p.description.Some? then p.description.value else t.description,
       genres := if p.genres.Some? then p.genres.value else t.genres,
       category := if p.category.Some? then p.category else t.category)
  }

  /** `TitleCreateSerializer.create`: insert the title without its genres,
      then set the genre relation to exactly the validated genres. */
  method CreateTitle(db: Database, data: ValidTitle) returns (t: Title)
    requires db.Valid()
    requires data.genres <= KeySet(db.genres, EntryId)
    requires data.category in KeySet(db.categories, EntryId)
    modifies db
    ensures db.Valid()
    ensures t == Title(old(db.nextId), data.name, data.year, data.description, data.genres, Some(data.category))
    ensures db.State() == old(db.State()).(titles := old(db.titles) + [t], nextId := old(db.nextId) + 1)
  {
    ghost var before := db.titles;
    var created := db.AddTitle(data.name, data.year, data.description, data.category);
    t := created.(genres := data.genres);
    db.ReplaceTitle(t);
    ReplaceLast(before, TitleId, created, t);
  }

  // ---------------------------------------------------------------- categories and genres

  /** A character the slug pattern `^[-a-zA-Z0-9_]+$` admits. */
  predicate SlugChar(c: char)
  {
    ('a' <= c <= 'z') || ('A' <= c <= 'Z') || ('0' <= c <= '9') || c == '-' || c == '_'
  }

  /** The slug pattern of a `SlugField`, for a value that is not blank. */
  predicate ValidSlug(s: string)
  {
    forall i :: 0 <= i < |s| ==> SlugChar(s[i])
  }

  /** A category or genre POST after validation. */
  datatype EntryData = EntryData(name: string, slug: string)

  /** `CategorySerializer` / `GenreSerializer`: the name is required, the
      slug is required, must match the slug pattern and must be unused;
      both are trimmed first. */
  function ValidateEntry(entries: seq<SlugEntry>, name: string, slug: string): (r: Result<EntryData, set<ApiError>>)
    ensures r.Success? <==>
      && Trim(name) != "" && Trim(slug) != "" && ValidSlug(Trim(slug))
      && forall e :: e in entries ==> e.slug != Trim(slug)
    ensures r.Success? ==> r.value == EntryData(Trim(name), Trim(slug))
    ensures r.Failure? ==> (FieldBlank("name") in r.error <==> Trim(name) == "")
    ensures r.Failure? ==> (FieldBlank("slug") in r.error <==> Trim(slug) == "")
    ensures r.Failure? ==> (SlugInvalid in r.error <==> Trim(slug) != "" && !ValidSlug(Trim(slug)))
    ensures r.Failure? ==>
      (SlugNotUnique in r.error <==> Trim(slug) != "" && exists e :: e in entries && e.slug == Trim(slug))
    ensures r.Failure? ==> r.error <= {FieldBlank("name"), FieldBlank("slug"), SlugInvalid, SlugNotUnique}
  {
    var n := Trim(name);
    var s := Trim(slug);
    var nameErrors: set<ApiError> := if n == "" then {FieldBlank("name")} else {};
    var slugErrors: set<ApiError> :=
      if s == "" then {FieldBlank("slug")}
      else (if ValidSlug(s) then {} else {SlugInvalid})
           + (if exists e :: e in entries && e.slug == s then {SlugNotUnique} else {});
    if nameErrors + slugErrors == {} then Success(EntryData(n, s))
    else Failure(nameErrors + slugErrors)
  }

  /** A slug is refused for a character outside the pattern, as in "sci fi". */
  lemma SlugWithSpaceRefused(entries: seq<SlugEntry>)
    ensures ValidateEntry(entries, "Science fiction", "sci fi").Failure?
    ensures SlugInvalid in ValidateEntry(entries, "Science fiction", "sci fi").error
  {
    TrimKeeps("Science fiction");
    TrimKeeps("sci fi");
    assert !SlugChar("sci fi"[3]);
  }
}
