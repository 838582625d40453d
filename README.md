# api_blog business rules in Dafny

This project models the rule layer of the api_blog review service (a Django REST
backend where users review titles such as books and films, and comment on the
reviews). The model covers:

- sign-up and its "me" ban;
- confirmation-code token issuance;
- the admin and self-service user endpoints;
- title creation and partial update;
- the rating annotation;
- category and genre search;
- review and comment creation, listing and editing;
- the storage rules of `reviews/models.py`: role accessors, unique columns, score bounds, one review per (title, author), and the `on_delete` cascades and SET_NULL.

Modules:

- `Wrappers`: `Option` and `Result`.
- `Text`: ASCII lower-casing, case-insensitive substring search (`icontains`), and the
  whitespace trimming of DRF's `CharField` (Python's `str.strip()`, with whitespace as
  `str.isspace()` defines it). Python's `lower()` gives `m` or `e` only from `M`/`m` or
  `E`/`e`, so the "me" check comes out the same as with full Unicode case mapping.
- `Tables`: generic operations on a table held as a sequence of rows:
  - filter, find and keyed lookup;
  - update by primary key;
  - key sets;
  - the "key determines the row" uniqueness predicate.
- `Models`: the entities of `reviews/models.py` as datatypes, and the role properties.
  - `DbState` holds the six tables. `Consistent` holds of a `DbState` when unique columns are unique, foreign keys resolve, every id is below the next id, and every score is in range.
  - There is one pure transition function per `delete()`, and lemmas prove that each deletion keeps `Consistent` and cascades as declared.
  - `class Database` holds the tables as fields. Its methods insert, update and delete rows, each keeping `Valid()`.
- `Serializers`: the validation of `api/serializers.py` over a read-only view of the tables, and `TitleCreateSerializer.create` as a method on the database.
- `Views`: the handlers of `api/views.py`.
  - Handlers that write are methods on a `Database`. Read-only handlers are functions of a `DbState`.
  - Each returns a `Response` whose constructor fixes the status: 200, 201, 204, 400, 404 or 405.

Where the behaviour depends on code the model cannot see, it takes that code as a
parameter:

- `usernameOk`, `emailOk` and `codeOk` are the library field validators.
- `checkToken` is `default_token_generator.check_token`.
- `currentYear` is `timezone.now().year`.
- `userId` is the authenticated user.

Behaviours of the code worth noting:

- When both the username and the e-mail of a sign-up belong to other accounts, the code raises only the username conflict. `ValidateSignup` reports only that one.
- The comment endpoints never look at the title id in their URL, so the model's comment handlers do not take one.
- `UsersSerializer` has no `not_me_validator`, so an admin PATCH may rename a user to "me". `UserPatchAllowsMe` states this.
- Every `CharField` of a serializer trims its input before validating it, and a required one refuses what is blank after trimming, with that error alone. So " me\n" is refused at sign-up (`PaddedMeRefused`), and the stored values are the trimmed ones.
- A `SlugField` accepts only `^[-a-zA-Z0-9_]+$`, and a `PositiveIntegerField` refuses a negative year before `validate_year` runs.

## Model

| member | source | states |
|---|---|---|
| Text.Lower | api_blog/api/serializers.py:16 | lower-casing keeps the length and maps each character on its own |
| Text.IsMeCasings | api_blog/api/serializers.py:16 | a value lower-cases to "me" exactly when it is one of "me", "Me", "mE", "ME" |
| Text.IContainsCaseBlind | api_blog/api/views.py:194 | `icontains` gives the same answer when either side is lower-cased first |
| Text.IContainsEmpty | api_blog/api/views.py:193-194 | every name contains the empty string, so skipping an empty `search` loses nothing |
| Text.Trim | api_blog/api/serializers.py:35-43 | the trimmed value is empty iff every character is whitespace; otherwise it neither starts nor ends with whitespace |
| Text.TrimSlice | api_blog/api/serializers.py:35-43 | trimming only cuts whitespace off the two ends: the result is a slice of the input with only whitespace before and after it |
| Text.TrimKeeps | api_blog/api/serializers.py:35-43 | a value with no whitespace at either end is left as it is |
| Text.TrimIdempotent | api_blog/api/serializers.py:35-43 | trimming twice gives what trimming once gives |
| Models.RoleAccessors | api_blog/reviews/models.py:63-73 | never both user and moderator; superuser or staff is always admin; the admin role excludes user and moderator; without the admin role, admin iff superuser or staff; for an ordinary account some accessor holds iff the role is not blank |
| Models.NewUser | api_blog/reviews/models.py:46-52 | a new account has the default role user, so it is a plain user and neither moderator nor admin |
| Models.UserDeletedConsistent | api_blog/reviews/models.py:143-186 | deleting a user keeps every unique column unique, every foreign key resolvable, every score in range |
| Models.UserDeletedCascade | api_blog/reviews/models.py:143-186 | after deleting a user: other users stay; a review stays iff another author wrote it; a comment stays iff neither it nor its review was written by that user |
| Models.TitleDeletedConsistent | api_blog/reviews/models.py:148-151 | deleting a title keeps the database consistent |
| Models.TitleDeletedCascade | api_blog/reviews/models.py:148-186 | after deleting a title its reviews are gone, and so are the comments on them; everything else stays |
| Models.ReviewDeletedConsistent | api_blog/reviews/models.py:184-187 | deleting a review keeps the database consistent |
| Models.ReviewDeletedCascade | api_blog/reviews/models.py:184-187 | after deleting a review its comments are gone, every other review and comment stays |
| Models.CommentDeletedConsistent | api_blog/reviews/models.py:179-191 | deleting a comment keeps the database consistent |
| Models.ClearCategoryLinked | api_blog/reviews/models.py:90-96 | once a category's id is nulled on every title, no title refers to that category |
| Models.DropGenreLinked | api_blog/reviews/models.py:85-89 | once a genre is removed from every title's genre set, no title refers to it |
| Models.CategoryDeletedConsistent | api_blog/reviews/models.py:90-96 | deleting a category keeps the database consistent, no title is lost |
| Models.CategoryDeletedSetsNull | api_blog/reviews/models.py:90-96 | after deleting a category, each title that pointed at it has a null category and is otherwise unchanged; other titles are untouched |
| Models.GenreDeletedConsistent | api_blog/reviews/models.py:85-89 | deleting a genre keeps the database consistent |
| Models.Database.AddUser | api_blog/reviews/models.py:25-52 | inserting a user whose username and e-mail are unused keeps the database valid and appends a row with the default role |
| Models.Database.ReplaceUser | api_blog/reviews/models.py:25-44 | saving a user whose username and e-mail clash with no other user keeps usernames and e-mails unique |
| Models.Database.DeleteUser | api_blog/api/views.py:92 | `user.delete()` leaves exactly the state of the cascade and keeps the database valid |
| Models.Database.AddCategory | api_blog/reviews/models.py:107-114 | inserting a category with an unused slug keeps slugs unique |
| Models.Database.AddGenre | api_blog/reviews/models.py:125-132 | inserting a genre with an unused slug keeps slugs unique |
| Models.Database.DeleteCategory | api_blog/reviews/models.py:90-96 | deleting a category leaves the SET_NULL state and a valid database |
| Models.Database.DeleteGenre | api_blog/reviews/models.py:85-89 | deleting a genre removes it from every title's genres and keeps the database valid |
| Models.Database.AddTitle | api_blog/api/serializers.py:191 | `Title.objects.create` appends a title with a fresh id and no genres |
| Models.Database.ReplaceTitle | api_blog/api/views.py:171 | saving a title whose category and genres exist keeps the database valid |
| Models.Database.DeleteTitle | api_blog/reviews/models.py:148-151 | deleting a title leaves the cascade state and a valid database |
| Models.Database.AddReview | api_blog/reviews/models.py:155-173 | inserting a review with a score in range and no earlier review by the same author of the same title keeps at most one review per pair |
| Models.Database.ReplaceReview | api_blog/reviews/models.py:155-160 | saving a review with the same title and author and a score in range keeps the database valid |
| Models.Database.DeleteReview | api_blog/reviews/models.py:184-187 | deleting a review leaves the cascade state and a valid database |
| Models.Database.AddComment | api_blog/reviews/models.py:179-191 | inserting a comment on an existing review by an existing user keeps the database valid |
| Models.Database.ReplaceComment | api_blog/reviews/models.py:179-191 | saving a comment with the same review and author keeps the database valid |
| Models.Database.DeleteComment | api_blog/reviews/models.py:179-191 | deleting a comment removes only that comment |
| Serializers.RequiredText | api_blog/api/serializers.py:35-43 | a required text field accepts iff some character is not whitespace; it then yields the trimmed, non-empty value, and otherwise exactly the field's blank error |
| Serializers.NotMe | api_blog/api/serializers.py:12-19 | the validator fails exactly on the four casings of "me" and passes every other value unchanged |
| Serializers.UsernameErrors | api_blog/api/serializers.py:35-39 | the sign-up username has no error iff, trimmed, it is non-blank, no casing of "me" and passes the username validator; a blank one reports only the blank error; only these three kinds occur |
| Serializers.EmailErrors | api_blog/api/serializers.py:40-43 | the sign-up e-mail has no error iff, trimmed, it is non-blank and a valid address; a blank one reports the blank error; only these two kinds occur |
| Serializers.SignupFieldErrors | api_blog/api/serializers.py:35-43 | the sign-up fields have no error iff the trimmed username is non-blank, no casing of "me" and valid, and the trimmed e-mail is non-blank and valid; a blank username is reported as blank and never as "me" or invalid |
| Serializers.ValidateSignup | api_blog/api/serializers.py:51-68 | it accepts iff the fields are valid and the exact trimmed (username, e-mail) pair exists or neither value is in use; field errors are reported as they are; a taken username gives the username conflict; a free username with a taken e-mail gives the e-mail conflict; any casing of "me" is refused even with surrounding whitespace; success returns the trimmed values |
| Serializers.PaddedMeRefused | api_blog/api/serializers.py:35-39 | the username " me\n" is refused at sign-up with the "me" error, because the field trims it first |
| Serializers.SignupLeavesNoConflict | api_blog/api/serializers.py:56-67 | after a successful validation, the pair already exists or no user holds the username or the e-mail, and every user with that username has that e-mail |
| Serializers.ValidateUserPatch | api_blog/api/serializers.py:22-29 | a user PATCH is accepted iff each username or e-mail it carries is non-blank after trimming, passes its format validator, and is held by no other user; an accepted patch is the trimmed one; a blank username is reported as blank and not as taken; a clash with another user is always reported |
| Serializers.ApplyUserPatch | api_blog/api/views.py:89 | saving a patch sets exactly the fields it carries (username, e-mail, first and last name, bio, role), each to the patch's value, and keeps the id and the staff and superuser flags |
| Serializers.ValidatedUserPatchStaysUnique | api_blog/reviews/models.py:25-44 | a validated user patch leaves no other user with the resulting username or e-mail |
| Serializers.UserPatchAllowsMe | api_blog/api/serializers.py:22-29 | the user serializer accepts the username "me", which sign-up refuses |
| Serializers.ValidateScore | api_blog/reviews/models.py:155-160 | a score is accepted iff it lies in [MIN_SCORE, MAX_SCORE] |
| Serializers.ReviewFieldErrors | api_blog/reviews/models.py:152-160 | a review's fields have no error iff a present text is non-blank after trimming and a present score is in range; the blank error and the score error each occur exactly when their field fails, and no other kind occurs |
| Serializers.CommentFieldErrors | api_blog/reviews/models.py:188 | a comment's text has no error iff it is absent or non-blank after trimming; otherwise the only error is the blank text |
| Serializers.ValidateReview | api_blog/api/serializers.py:99-108 | validation fails iff the request is a POST and the author already reviewed that title; a PATCH always passes |
| Serializers.ValidatedReviewStaysUnique | api_blog/reviews/models.py:168-173 | adding a review that passed POST validation keeps (title, author) unique |
| Serializers.ValidateYear | api_blog/api/serializers.py:166-172 | a year is accepted unchanged iff 0 <= year <= current year; a negative year fails the positive-integer check, a later year fails `validate_year`, one error each |
| Serializers.ResolveSlug | api_blog/api/serializers.py:156-159 | a category slug resolves iff some category has it, to the id of such a category, and, when slugs are unique, to the id of every category with that slug |
| Serializers.ResolveSlugs | api_blog/api/serializers.py:151-155 | a list of genre slugs resolves iff every slug names a genre; the result holds only existing genre ids of genres with those slugs, and, when slugs are unique, exactly the ids of the genres the slugs name |
| Serializers.ValidateGenre | api_blog/api/serializers.py:174-179 | a missing genre list or an unknown slug is refused with the genre error alone; otherwise, with unique slugs, the result is exactly the ids of the genres the slugs name |
| Serializers.ValidateCategory | api_blog/api/serializers.py:181-186 | a missing or unknown category is refused with the category error alone; otherwise the result is the id of a category with that slug, and of every such category when slugs are unique |
| Serializers.TitleErrors | api_blog/api/serializers.py:149-186 | a title POST has no error iff the trimmed name is non-blank, 0 <= year <= current year, the genres resolve and the category resolves; each of the five errors occurs exactly when its field fails, and no other kind occurs |
| Serializers.ValidateTitle | api_blog/api/serializers.py:149-186 | a title POST is accepted iff it has no field error, and a refused one reports exactly those errors; an accepted one holds the trimmed name and description, the year, the resolved genre ids and the resolved category id |
| Serializers.TitlePatchErrors | api_blog/api/views.py:155-158 | a title PATCH has no error iff every field it carries is valid: a non-blank trimmed name, a year in [0, current year], resolving genres and category; each error occurs exactly when a present field fails, an absent field never fails, and no other kind occurs |
| Serializers.ValidateTitlePatch | api_blog/api/views.py:155-158 | a title PATCH is accepted iff it has no field error, and a refused one reports exactly those errors; an accepted one carries the trimmed name and description, the year, and the resolved genres and category, each exactly where the patch has that field |
| Serializers.ApplyTitlePatch | api_blog/api/views.py:171 | saving a title patch keeps the id and sets the name, year, description, genres and category to the patch's values exactly where the patch has them |
| Serializers.CreateTitle | api_blog/api/serializers.py:188-193 | creating a title appends one title with the given fields and exactly the validated genre set, and keeps the database valid |
| Serializers.ValidateEntry | api_blog/reviews/models.py:107-114 | a category or genre POST is accepted iff the trimmed name is non-blank and the trimmed slug is non-blank, matches the slug pattern and is unused; accepted values are the trimmed ones; each error occurs exactly when its cause holds, a blank slug is reported only as blank, and no other kind occurs |
| Serializers.SlugWithSpaceRefused | api_blog/reviews/models.py:111-114 | the slug "sci fi" is refused as not matching the slug pattern |
| Views.Signup | api_blog/api/views.py:43-59 | a refused sign-up changes nothing; an accepted one returns the submitted data, reuses an existing exact pair or appends one new user, and leaves exactly one user with that username |
| Views.SignupTwice | api_blog/api/views.py:49-51 | repeating an accepted sign-up returns the same response and adds no second user |
| Views.ErrorKeys | api_blog/api/views.py:135-167 | a wrong confirmation code is reported under `confirmation_code`, an over-long title name under `name`, and a blank field under that field |
| Views.TokenFieldErrors | api_blog/api/serializers.py:71-81 | the token request has no field error iff the trimmed username is non-blank and matches the pattern and the trimmed code is non-blank and valid; only the blank and format errors of these two fields occur |
| Views.GetToken | api_blog/api/views.py:128-138 | invalid fields give 400 with exactly their errors; a trimmed username nobody holds gives 404; otherwise, with unique usernames, the user's token when the trimmed code checks, and 400 with only the confirmation-code error when it does not |
| Views.UserNamed | api_blog/api/views.py:85 | the lookup finds a user iff one has that username, and returns such a user |
| Views.GetUserInfo | api_blog/api/views.py:85-95 | a GET returns the user with that username, or 404 when there is none |
| Views.PatchUserInfo | api_blog/api/views.py:86-90 | an unknown username gives 404, a refused patch 400 and no change; otherwise the user's row is replaced by the patched one |
| Views.DeleteUserInfo | api_blog/api/views.py:91-93 | an unknown username gives 404 and no change; otherwise 204, the cascade state, and no user with that username remains |
| Views.MeGet | api_blog/api/views.py:118-119 | a GET on /users/me/ returns the requesting user's own row |
| Views.PatchMe | api_blog/api/views.py:109-117 | a self-PATCH gives 400 iff validation fails, and then changes nothing; otherwise the user's row is replaced by the patched one with the old role put back, so the role never changes whatever the payload |
| Views.ReviewsOf | api_blog/api/views.py:230 | a title's reviews are exactly the stored reviews with that title id, each as many times as it is stored |
| Views.Rating | api_blog/api/views.py:143-144 | the rating is absent iff the title has no reviews; otherwise it is the mean score rounded down: n·r ≤ sum < n·(r+1) |
| Views.ScoreSumBounds | api_blog/reviews/models.py:155-160 | n scores each in [MIN_SCORE, MAX_SCORE] sum to between n·MIN_SCORE and n·MAX_SCORE |
| Views.RatingInRange | api_blog/api/views.py:143-144 | a present rating lies in [MIN_SCORE, MAX_SCORE] |
| Views.Annotated | api_blog/api/views.py:143-144 | the annotated list pairs every title, in order, with its rating |
| Views.TitleRetrieve | api_blog/api/views.py:143-144 | a title is shown with its rating, or 404 when the id is unknown |
| Views.TitleUpdate | api_blog/api/views.py:150-151 | a PUT on a title always answers 405 and changes nothing |
| Views.TitlePartialUpdate | api_blog/api/views.py:153-172 | an unknown id gives 404; invalid fields give 400 with exactly their errors; a trimmed name over 256 characters gives 400 with only the length error; each of these leaves the store unchanged; otherwise the title becomes the patched one |
| Views.TitleCreate | api_blog/api/serializers.py:149-193 | a refused title POST gives 400 with the field errors and changes nothing; an accepted one appends the title with the trimmed name and description, the year, exactly the genres the slugs name and the category the slug names |
| Views.TitleDestroy | api_blog/reviews/models.py:148-151 | an unknown title gives 404; otherwise 204 and the cascade state |
| Views.SearchByName | api_blog/api/views.py:190-195 | with no search or an empty one every entry is returned; otherwise exactly those whose name contains the query, ignoring case, each as many times as it is stored |
| Views.CategoryList | api_blog/api/views.py:190-195 | the category list holds exactly the categories whose name contains a non-empty search, ignoring case, or all of them, each as many times as it is stored |
| Views.GenreList | api_blog/api/views.py:208-213 | the genre list holds exactly the genres whose name contains a non-empty search, ignoring case, or all of them, each as many times as it is stored |
| Views.CategoryCreate | api_blog/api/serializers.py:123-127 | a category POST gives 400 iff validation fails, with its errors and no change; otherwise it appends the category with the trimmed, non-blank name and the trimmed, well-formed, unused slug |
| Views.CategoryDestroy | api_blog/api/views.py:180-187 | deleting a category by an unknown slug gives 404; otherwise 204 and the SET_NULL state |
| Views.GenreCreate | api_blog/api/serializers.py:130-134 | a genre POST gives 400 iff validation fails, with its errors and no change; otherwise it appends the genre with the trimmed, non-blank name and the trimmed, well-formed, unused slug |
| Views.GenreDestroy | api_blog/api/views.py:198-205 | deleting a genre by an unknown slug gives 404; otherwise 204 and the genre is dropped from every title |
| Views.ReviewList | api_blog/api/views.py:228-230 | listing under an unknown title gives 404; otherwise exactly that title's reviews, each as many times as it is stored |
| Views.ReviewCreate | api_blog/api/views.py:232-234 | invalid fields give 400 with exactly their errors; a second review of the title by the same author gives 400; an unknown title gives 404; none of these changes anything; a review is created iff none of them applies, and it has the trimmed text, the requesting user as author and the URL's title |
| Views.ReviewPartialUpdate | api_blog/api/views.py:228-230 | a review not under that title gives 404; for a review that is, 400 iff a field is invalid, with exactly its errors; the one-review rule is not applied; otherwise the review gets the trimmed new text and the new score |
| Views.ReviewDestroy | api_blog/api/views.py:228-230 | a review not under that title gives 404; otherwise 204 and the review's comments go with it |
| Views.CommentList | api_blog/api/views.py:249-251 | listing under an unknown review gives 404; otherwise exactly that review's comments, each as many times as it is stored |
| Views.CommentCreate | api_blog/api/views.py:253-255 | 400 with only the blank-text error iff the text is blank after trimming; an unknown review gives 404; otherwise one comment is appended, with the trimmed text, the requesting user as author and the URL's review |
| Views.CommentPartialUpdate | api_blog/api/views.py:249-251 | a comment not under that review gives 404; for one that is, 400 iff a text is given that is blank after trimming; otherwise the comment gets the trimmed new text |
| Views.CommentDestroy | api_blog/api/views.py:249-251 | a comment not under that review gives 404; otherwise 204 and only that comment is removed |

## Left out

- Sending the confirmation e-mail (`send_conf_code`) and generating the code (`make_token`): these are outbound I/O and a library call. `check_token` is the parameter `checkToken`.
- The encoding of the JWT: a token is `AccessToken(userId)`.
- Wall-clock time: the year check takes `currentYear`, and the `pub_date` timestamps are not modelled.
- Library field validators are abstract predicates (`usernameOk`, `emailOk`, `codeOk`):
  - the username pattern, the e-mail format, the `RegexField` pattern;
  - every `max_length`, since `reviews/constants.py` is not part of this model.
- The model field `max_length` of title, category and genre names and slugs is not checked at all.
- MIN_SCORE and MAX_SCORE are taken as 1 and 10, since `reviews/constants.py` is not part of this model. TITLE_NAME_MAX_LEN is 256, the number in the error message of `partial_update`.
- "This field is required" errors for absent POST fields: a POST's fields are always present in the model, except `genre` and `category`, which may be missing. A title POST without `description` (`blank=True` makes it optional) is not modelled.
- The `null` and wrong-type errors of a field, and the `choices` check of `role`: a `Role` value is always one of the choices.
- Permission classes (`permissions.py` is not part of this model), pagination, `TitleFilter` (`filters.py` is not part of this model), `order_by`/`Meta.ordering`, the user list and create endpoints and their username search, URL routing and the admin site.
- Authentication: the requesting user is the parameter `userId`, which must be an existing user.
- The concurrent race between two review POSTs: the model is sequential.
- Primary keys: one counter serves every table, whereas the database has one sequence per table. Only freshness matters to the rules.
- `Role` values outside the choices cannot be represented. `Blank` stands for the empty role that `blank=True` admits.
- Views.Rating: states the mean rounded down, as the integer field shows it. It does not model the floating-point `Avg` or its rounding error.
- Views.SearchByName: case folding is ASCII-only (`Text.Lower`), as SQLite's `LIKE` does it; on PostgreSQL `icontains` folds every Unicode letter, and the model does not capture that.
- Views.SearchByName: states which entries are returned and how often, not that they keep the queryset's order.
- Views.ReviewsOf: states which reviews are returned and how often, not their order.
- Views.ReviewList: states which reviews are returned and how often, not their order.
- Views.CommentList: states which comments are returned and how often, not their order.
- Views.Annotated: keeps the stored order of the titles rather than `order_by('id')`.
