/** The entities of reviews/models.py, their declared constraints (unique
    columns, the score validators, the one-review-per-(title, author)
    constraint) and the on_delete rules, over a store that holds one table
    per model. */
module Models {
  import opened Wrappers
  import opened Tables

  /** Bounds of `Review.score`; reviews/constants.py is not part of this model. */
  const MIN_SCORE: int := 1
  const MAX_SCORE: int := 10

  /** The `role` choices; `Blank` is the empty string that `blank=True` admits. */
  datatype Role = UserRole | ModeratorRole | AdminRole | Blank

  datatype User = User(
    id: nat,
    username: string,
    email: string,
    firstName: string,
    lastName: string,
    bio: string,
    role: Role,
    isSuperuser: bool,
    isStaff: bool)

  predicate IsUser(u: User)
  {
    u.role == UserRole
  }

  predicate IsModerator(u: User)
  {
    u.role == ModeratorRole
  }

  predicate IsAdmin(u: User)
  {
    u.role == AdminRole || u.isSuperuser || u.isStaff
  }

  /** How the three derived role flags relate to the stored role and the two
      account flags. */
  lemma RoleAccessors(u: User)
    ensures !(IsUser(u) && IsModerator(u))
    ensures u.isSuperuser || u.isStaff ==> IsAdmin(u)
    ensures u.role == AdminRole ==> IsAdmin(u) && !IsUser(u) && !IsModerator(u)
    ensures u.role != AdminRole ==> (IsAdmin(u) <==> u.isSuperuser || u.isStaff)
    ensures !u.isSuperuser && !u.isStaff ==>
      (u.role != Blank <==> (IsUser(u) || IsModerator(u) || IsAdmin(u)))
  {
  }

  /** A freshly created account: role defaults to `user`, every optional field is blank. */
  function NewUser(id: nat, username: string, email: string): (u: User)
    ensures u.id == id && u.username == username && u.email == email
    ensures u.role == UserRole && IsUser(u) && !IsModerator(u) && !IsAdmin(u)
  {
    User(id, username, email, "", "", "", UserRole, false, false)
  }

  /** `Category` and `Genre` have the same shape: a display name and a unique slug. */
  datatype SlugEntry = SlugEntry(id: nat, name: string, slug: string)
  type Category = SlugEntry
  type Genre = SlugEntry

  /** `genres` is the many-to-many relation, `category` the nullable foreign key. */
  datatype Title = Title(
    id: nat,
    name: string,
    year: nat,
    description: string,
    genres: set<nat>,
    category: Option<nat>)

  datatype Review = Review(id: nat, titleId: nat, authorId: nat, text: string, score: int)

  datatype Comment = Comment(id: nat, reviewId: nat, authorId: nat, text: string)

  predicate ScoreInRange(score: int)
  {
    MIN_SCORE <= score <= MAX_SCORE
  }

  // Columns, as functions so that the generic table operations can name them.
  function UserId(u: User): nat { u.id }
  function Username(u: User): string { u.username }
  function Email(u: User): string { u.email }
  function EntryId(e: SlugEntry): nat { e.id }
  function Slug(e: SlugEntry): string { e.slug }
  function TitleId(t: Title): nat { t.id }
  function ReviewId(r: Review): nat { r.id }
  function ReviewTitle(r: Review): nat { r.titleId }
  function ReviewAuthor(r: Review): nat { r.authorId }
  function ReviewPair(r: Review): (nat, nat) { (r.titleId, r.authorId) }
  function CommentId(c: Comment): nat { c.id }
  function CommentReview(c: Comment): nat { c.reviewId }
  function CommentAuthor(c: Comment): nat { c.authorId }

  /** `on_delete=SET_NULL` of `Title.category`, applied to one title. */
  function ClearCategory(categoryId: nat): (f: Title -> Title)
    ensures forall t :: f(t) == if t.category == Some(categoryId) then t.(category := None) else t
  {
    (t: Title) => if t.category == Some(categoryId) then t.(category := None) else t
  }

  /** Removal of a genre from one title's many-to-many relation. */
  function DropGenre(genreId: nat): (f: Title -> Title)
    ensures forall t :: f(t) == t.(genres := t.genres - {genreId})
  {
    (t: Title) => t.(genres := t.genres - {genreId})
  }

  /** The contents of every table, and the next primary key to hand out. */
  datatype DbState = DbState(
    users: seq<User>,
    categories: seq<Category>,
    genres: seq<Genre>,
    titles: seq<Title>,
    reviews: seq<Review>,
    comments: seq<Comment>,
    nextId: nat)

  /** The declared unique columns. */
  ghost predicate UniqueColumns(db: DbState)
  {
    && UniqueBy(db.users, UserId) && UniqueBy(db.users, Username) && UniqueBy(db.users, Email)
    && UniqueBy(db.categories, EntryId) && UniqueBy(db.categories, Slug)
    && UniqueBy(db.genres, EntryId) && UniqueBy(db.genres, Slug)
    && UniqueBy(db.titles, TitleId)
    && UniqueBy(db.reviews, ReviewId) && UniqueBy(db.reviews, ReviewPair)
    && UniqueBy(db.comments, CommentId)
  }

  /** Every primary key in use is below `nextId`. */
  ghost predicate FreshIds(db: DbState)
  {
    && Below(db.users, UserId, db.nextId)
    && Below(db.categories, EntryId, db.nextId)
    && Below(db.genres, EntryId, db.nextId)
    && Below(db.titles, TitleId, db.nextId)
    && Below(db.reviews, ReviewId, db.nextId)
    && Below(db.comments, CommentId, db.nextId)
  }

  /** Every title's category and genres are among the given ids. */
  ghost predicate TitlesLinked(titles: seq<Title>, categoryIds: set<nat>, genreIds: set<nat>)
  {
    forall t :: t in titles ==>
      (t.category.Some? ==> t.category.value in categoryIds) && t.genres <= genreIds
  }

  /** Every foreign key points at an existing row. */
  ghost predicate LinksResolve(db: DbState)
  {
    && TitlesLinked(db.titles, KeySet(db.categories, EntryId), KeySet(db.genres, EntryId))
    && (forall r :: r in db.reviews ==>
          r.titleId in KeySet(db.titles, TitleId) && r.authorId in KeySet(db.users, UserId))
    && (forall c :: c in db.comments ==>
          c.reviewId in KeySet(db.reviews, ReviewId) && c.authorId in KeySet(db.users, UserId))
  }

  /** The score validators hold of every stored review. */
  ghost predicate ScoresInRange(db: DbState)
  {
    forall r :: r in db.reviews ==> ScoreInRange(r.score)
  }

  ghost predicate Consistent(db: DbState)
  {
    UniqueColumns(db) && FreshIds(db) && LinksResolve(db) && ScoresInRange(db)
  }


  /** The tables after `user.delete()`: `on_delete=CASCADE` of `Review.author`
      and `Comment.author`, and of `Comment.review` for the reviews that go. */
  function UserDeleted(db: DbState, id: nat): DbState
  {
    var reviews := Filter(db.reviews, KeyIsNot(ReviewAuthor, id));
    db.(users := Filter(db.users, KeyIsNot(UserId, id)),
        reviews := reviews,
        comments := Filter(Filter(db.comments, KeyIsNot(CommentAuthor, id)),
                           KeyIn(CommentReview, KeySet(reviews, ReviewId))))
  }

  /** The tables after `title.delete()`: `on_delete=CASCADE` of
      `Review.title`, then of `Comment.review`. */
  function TitleDeleted(db: DbState, id: nat): DbState
  {
    var reviews := Filter(db.reviews, KeyIsNot(ReviewTitle, id));
    db.(titles := Filter(db.titles, KeyIsNot(TitleId, id)),
        reviews := reviews,
        comments := Filter(db.comments, KeyIn(CommentReview, KeySet(reviews, ReviewId))))
  }

  /** The tables after `review.delete()`: `on_delete=CASCADE` of `Comment.review`. */
  function ReviewDeleted(db: DbState, id: nat): DbState
  {
    db.(reviews := Filter(db.reviews, KeyIsNot(ReviewId, id)),
        comments := Filter(db.comments, KeyIsNot(CommentReview, id)))
  }

  /** The tables after `comment.delete()`: nothing refers to a comment. */
  function CommentDeleted(db: DbState, id: nat): DbState
  {
    db.(comments := Filter(db.comments, KeyIsNot(CommentId, id)))
  }

  /** The tables after `category.delete()`: `on_delete=SET_NULL` of `Title.category`. */
  function CategoryDeleted(db: DbState, id: nat): DbState
  {
    db.(categories := Filter(db.categories, KeyIsNot(EntryId, id)),
        titles := Map(db.titles, ClearCategory(id)))
  }

  /** The tables after `genre.delete()`: its rows of the many-to-many relation go with it. */
  function GenreDeleted(db: DbState, id: nat): DbState
  {
    db.(genres := Filter(db.genres, KeyIsNot(EntryId, id)),
        titles := Map(db.titles, DropGenre(id)))
  }

  lemma UserDeletedConsistent(db: DbState, id: nat)
    requires Consistent(db)
    ensures Consistent(UserDeleted(db, id))
  {
    var d := UserDeleted(db, id);
    KeySetExcept(db.users, UserId, id);
    assert UniqueColumns(d);
    assert FreshIds(d);
    assert ScoresInRange(d);
    forall r | r in d.reviews
      ensures r.titleId in KeySet(d.titles, TitleId) && r.authorId in KeySet(d.users, UserId)
    {
    }
    forall c | c in d.comments
      ensures c.reviewId in KeySet(d.reviews, ReviewId) && c.authorId in KeySet(d.users, UserId)
    {
    }
  }

  /** Deleting a user removes the account, every review and comment it wrote,
      and every comment on one of those reviews; every other row stays. */
  lemma UserDeletedCascade(db: DbState, id: nat)
    requires Consistent(db)
    ensures var d := UserDeleted(db, id);
      && (forall u :: u in d.users <==> u in db.users && u.id != id)
      && (forall r :: r in d.reviews <==> r in db.reviews && r.authorId != id)
      && (forall c :: c in d.comments <==>
            c in db.comments && c.authorId != id
            && forall r :: r in db.reviews && r.id == c.reviewId ==> r.authorId != id)
      && d.titles == db.titles && d.categories == db.categories && d.genres == db.genres
  {
    var d := UserDeleted(db, id);
    forall c | c in db.comments && c.authorId != id
      ensures c in d.comments <==> forall r :: r in db.reviews && r.id == c.reviewId ==> r.authorId != id
    {
      var r :| r in db.reviews && r.id == c.reviewId;
      if r.authorId != id {
        assert r in d.reviews;
      }
    }
  }

  lemma TitleDeletedConsistent(db: DbState, id: nat)
    requires Consistent(db)
    ensures Consistent(TitleDeleted(db, id))
  {
    var d := TitleDeleted(db, id);
    KeySetExcept(db.titles, TitleId, id);
    assert UniqueColumns(d);
    assert FreshIds(d);
    assert ScoresInRange(d);
    forall r | r in d.reviews
      ensures r.titleId in KeySet(d.titles, TitleId) && r.authorId in KeySet(d.users, UserId)
    {
    }
  }

  /** Deleting a title removes it, its reviews and the comments on those
      reviews; every other row stays. */
  lemma TitleDeletedCascade(db: DbState, id: nat)
    requires Consistent(db)
    ensures var d := TitleDeleted(db, id);
      && (forall t :: t in d.titles <==> t in db.titles && t.id != id)
      && (forall r :: r in d.reviews <==> r in db.reviews && r.titleId != id)
      && (forall c :: c in d.comments <==>
            c in db.comments && forall r :: r in db.reviews && r.id == c.reviewId ==> r.titleId != id)
      && d.users == db.users && d.categories == db.categories && d.genres == db.genres
  {
    var d := TitleDeleted(db, id);
    forall c | c in db.comments
      ensures c in d.comments <==> forall r :: r in db.reviews && r.id == c.reviewId ==> r.titleId != id
    {
      var r :| r in db.reviews && r.id == c.reviewId;
      if r.titleId != id {
        assert r in d.reviews;
      }
    }
  }

  lemma ReviewDeletedConsistent(db: DbState, id: nat)
    requires Consistent(db)
    ensures Consistent(ReviewDeleted(db, id))
  {
    var d := ReviewDeleted(db, id);
    KeySetExcept(db.reviews, ReviewId, id);
    assert UniqueColumns(d);
    assert FreshIds(d);
  }

  /** Deleting a review removes it and exactly its comments. */
  lemma ReviewDeletedCascade(db: DbState, id: nat)
    ensures var d := ReviewDeleted(db, id);
      && (forall r :: r in d.reviews <==> r in db.reviews && r.id != id)
      && (forall c :: c in d.comments <==> c in db.comments && c.reviewId != id)
      && d.users == db.users && d.titles == db.titles
  {
  }

  lemma CommentDeletedConsistent(db: DbState, id: nat)
    requires Consistent(db)
    ensures Consistent(CommentDeleted(db, id))
  {
  }

  lemma ClearCategoryLinked(titles: seq<Title>, id: nat, categoryIds: set<nat>, genreIds: set<nat>)
    requires TitlesLinked(titles, categoryIds, genreIds)
    ensures TitlesLinked(Map(titles, ClearCategory(id)), categoryIds - {id}, genreIds)
  {
    var r := Map(titles, ClearCategory(id));
    forall t | t in r
      ensures (t.category.Some? ==> t.category.value in categoryIds - {id}) && t.genres <= genreIds
    {
      var i :| 0 <= i < |r| && r[i] == t;
      assert titles[i] in titles;
    }
  }

  lemma DropGenreLinked(titles: seq<Title>, id: nat, categoryIds: set<nat>, genreIds: set<nat>)
    requires TitlesLinked(titles, categoryIds, genreIds)
    ensures TitlesLinked(Map(titles, DropGenre(id)), categoryIds, genreIds - {id})
  {
    var r := Map(titles, DropGenre(id));
    forall t | t in r
      ensures (t.category.Some? ==> t.category.value in categoryIds) && t.genres <= genreIds - {id}
    {
      var i :| 0 <= i < |r| && r[i] == t;
      assert titles[i] in titles;
    }
  }

  lemma CategoryDeletedConsistent(db: DbState, id: nat)
    requires Consistent(db)
    ensures Consistent(CategoryDeleted(db, id))
  {
    var d := CategoryDeleted(db, id);
    KeySetExcept(db.categories, EntryId, id);
    MapKeySet(db.titles, ClearCategory(id), TitleId);
    MapUnique(db.titles, ClearCategory(id), TitleId);
    MapBelow(db.titles, ClearCategory(id), TitleId, db.nextId);
    ClearCategoryLinked(db.titles, id, KeySet(db.categories, EntryId), KeySet(db.genres, EntryId));
  }

  /** Deleting a category nulls the category of exactly the titles that
      referred to it and changes nothing else about any title. */
  lemma CategoryDeletedSetsNull(db: DbState, id: nat)
    ensures var d := CategoryDeleted(db, id);
      && |d.titles| == |db.titles|
      && (forall i :: 0 <= i < |db.titles| ==>
            d.titles[i].category == (if db.titles[i].category == Some(id) then None else db.titles[i].category)
            && d.titles[i] == db.titles[i].(category := d.titles[i].category))
      && (forall c :: c in d.categories <==> c in db.categories && c.id != id)
      && d.reviews == db.reviews && d.comments == db.comments
  {
  }

  lemma GenreDeletedConsistent(db: DbState, id: nat)
    requires Consistent(db)
    ensures Consistent(GenreDeleted(db, id))
  {
    var d := GenreDeleted(db, id);
    KeySetExcept(db.genres, EntryId, id);
    MapKeySet(db.titles, DropGenre(id), TitleId);
    MapUnique(db.titles, DropGenre(id), TitleId);
    MapBelow(db.titles, DropGenre(id), TitleId, db.nextId);
    DropGenreLinked(db.titles, id, KeySet(db.categories, EntryId), KeySet(db.genres, EntryId));
  }

  /** The row store behind the ORM. */
  class Database {
    var users: seq<User>
    var categories: seq<Category>
    var genres: seq<Genre>
    var titles: seq<Title>
    var reviews: seq<Review>
    var comments: seq<Comment>
    var nextId: nat

    function State(): DbState
      reads this
    {
      DbState(users, categories, genres, titles, reviews, comments, nextId)
    }

    ghost predicate Valid()
      reads this
    {
      Consistent(State())
    }

    constructor ()
      ensures Valid()
      ensures State() == DbState([], [], [], [], [], [], 1)
    {
      users, categories, genres, titles, reviews, comments := [], [], [], [], [], [];
      nextId := 1;
    }

    /** `CustomUser.objects.create(username=..., email=...)`. */
    method AddUser(username: string, email: string) returns (u: User)
      requires Valid()
      requires forall v :: v in users ==> v.username != username && v.email != email
      modifies this
      ensures Valid()
      ensures u == NewUser(old(nextId), username, email)
      ensures State() == old(State()).(users := old(users) + [u], nextId := old(nextId) + 1)
    {
      u := NewUser(nextId, username, email);
      AppendFresh(users, UserId, u, nextId);
      AppendUnique(users, Username, u);
      AppendUnique(users, Email, u);
      KeySetAppend(users, UserId, u);
      users := users + [u];
      nextId := nextId + 1;
    }

    /** Saving a changed user row; its primary key stays the same. */
    method ReplaceUser(u: User)
      requires Valid()
      requires u.id in KeySet(users, UserId)
      requires forall v :: v in users && v.id != u.id ==> v.username != u.username && v.email != u.email
      modifies this
      ensures Valid()
      ensures State() == old(State()).(users := ReplaceBy(old(users), UserId, u))
    {
      ReplaceUnique(users, UserId, u, UserId);
      ReplaceUnique(users, UserId, u, Username);
      ReplaceUnique(users, UserId, u, Email);
      ReplaceKeySet(users, UserId, u);
      users := ReplaceBy(users, UserId, u);
    }

    /** `user.delete()`, with its cascades. */
    method DeleteUser(id: nat)
      requires Valid()
      modifies this
      ensures Valid()
      ensures State() == UserDeleted(old(State()), id)
    {
      UserDeletedConsistent(State(), id);
      var d := UserDeleted(State(), id);
      users, reviews, comments := d.users, d.reviews, d.comments;
    }

    /** `Category.objects.create(name=..., slug=...)`. */
    method AddCategory(name: string, slug: string) returns (e: Category)
      requires Valid()
      requires forall c :: c in categories ==> c.slug != slug
      modifies this
      ensures Valid()
      ensures e == SlugEntry(old(nextId), name, slug)
      ensures State() == old(State()).(categories := old(categories) + [e], nextId := old(nextId) + 1)
    {
      e := SlugEntry(nextId, name, slug);
      AppendFresh(categories, EntryId, e, nextId);
      AppendUnique(categories, Slug, e);
      KeySetAppend(categories, EntryId, e);
      categories := categories + [e];
      nextId := nextId + 1;
    }

    /** `Genre.objects.create(name=..., slug=...)`. */
    method AddGenre(name: string, slug: string) returns (e: Genre)
      requires Valid()
      requires forall g :: g in genres ==> g.slug != slug
      modifies this
      ensures Valid()
      ensures e == SlugEntry(old(nextId), name, slug)
      ensures State() == old(State()).(genres := old(genres) + [e], nextId := old(nextId) + 1)
    {
      e := SlugEntry(nextId, name, slug);
      AppendFresh(genres, EntryId, e, nextId);
      AppendUnique(genres, Slug, e);
      KeySetAppend(genres, EntryId, e);
      genres := genres + [e];
      nextId := nextId + 1;
    }

    /** `category.delete()`, nulling the category of its titles. */
    method DeleteCategory(id: nat)
      requires Valid()
      modifies this
      ensures Valid()
      ensures State() == CategoryDeleted(old(State()), id)
    {
      CategoryDeletedConsistent(State(), id);
      var d := CategoryDeleted(State(), id);
      categories, titles := d.categories, d.titles;
    }

    /** `genre.delete()`, dropping it from every title. */
    method DeleteGenre(id: nat)
      requires Valid()
      modifies this
      ensures Valid()
      ensures State() == GenreDeleted(old(State()), id)
    {
      GenreDeletedConsistent(State(), id);
      var d := GenreDeleted(State(), id);
      genres, titles := d.genres, d.titles;
    }

    /** `Title.objects.create(...)` without genres: the relation is set afterwards. */
    method AddTitle(name: string, year: nat, description: string, category: nat) returns (t: Title)
      requires Valid()
      requires category in KeySet(categories, EntryId)
      modifies this
      ensures Valid()
      ensures t == Title(old(nextId), name, year, description, {}, Some(category))
      ensures State() == old(State()).(titles := old(titles) + [t], nextId := old(nextId) + 1)
    {
      t := Title(nextId, name, year, description, {}, Some(category));
      AppendFresh(titles, TitleId, t, nextId);
      KeySetAppend(titles, TitleId, t);
      titles := titles + [t];
      nextId := nextId + 1;
    }

    /** Saving a changed title row (field update or `title.genre.set(...)`). */
    method ReplaceTitle(t: Title)
      requires Valid()
      requires t.id in KeySet(titles, TitleId)
      requires t.category.Some? ==> t.category.value in KeySet(categories, EntryId)
      requires t.genres <= KeySet(genres, EntryId)
      modifies this
      ensures Valid()
      ensures State() == old(State()).(titles := ReplaceBy(old(titles), TitleId, t))
    {
      ReplaceUnique(titles, TitleId, t, TitleId);
      ReplaceKeySet(titles, TitleId, t);
      titles := ReplaceBy(titles, TitleId, t);
    }

    /** `title.delete()`, with its cascades. */
    method DeleteTitle(id: nat)
      requires Valid()
      modifies this
      ensures Valid()
      ensures State() == TitleDeleted(old(State()), id)
    {
      TitleDeletedConsistent(State(), id);
      var d := TitleDeleted(State(), id);
      titles, reviews, comments := d.titles, d.reviews, d.comments;
    }

    /** `serializer.save(author=..., title=...)` for a new review. */
    method AddReview(titleId: nat, authorId: nat, text: string, score: int) returns (r: Review)
      requires Valid()
      requires titleId in KeySet(titles, TitleId) && authorId in KeySet(users, UserId)
      requires ScoreInRange(score)
      requires forall x :: x in reviews ==> x.titleId != titleId || x.authorId != authorId
      modifies this
      ensures Valid()
      ensures r == Review(old(nextId), titleId, authorId, text, score)
      ensures State() == old(State()).(reviews := old(reviews) + [r], nextId := old(nextId) + 1)
    {
      r := Review(nextId, titleId, authorId, text, score);
      AppendFresh(reviews, ReviewId, r, nextId);
      AppendUnique(reviews, ReviewPair, r);
      KeySetAppend(reviews, ReviewId, r);
      reviews := reviews + [r];
      nextId := nextId + 1;
    }

    /** Saving a changed review; title and author are read-only, so only text and score change. */
    method ReplaceReview(r: Review)
      requires Valid()
      requires exists x :: x in reviews && x.id == r.id && x.titleId == r.titleId && x.authorId == r.authorId
      requires ScoreInRange(r.score)
      modifies this
      ensures Valid()
      ensures State() == old(State()).(reviews := ReplaceBy(old(reviews), ReviewId, r))
    {
      ReplaceUnique(reviews, ReviewId, r, ReviewId);
      ReplaceUnique(reviews, ReviewId, r, ReviewPair);
      ReplaceKeySet(reviews, ReviewId, r);
      reviews := ReplaceBy(reviews, ReviewId, r);
    }

    /** `review.delete()`, with its comments. */
    method DeleteReview(id: nat)
      requires Valid()
      modifies this
      ensures Valid()
      ensures State() == ReviewDeleted(old(State()), id)
    {
      ReviewDeletedConsistent(State(), id);
      var d := ReviewDeleted(State(), id);
      reviews, comments := d.reviews, d.comments;
    }

    /** `serializer.save(author=..., review=...)` for a new comment. */
    method AddComment(reviewId: nat, authorId: nat, text: string) returns (c: Comment)
      requires Valid()
      requires reviewId in KeySet(reviews, ReviewId) && authorId in KeySet(users, UserId)
      modifies this
      ensures Valid()
      ensures c == Comment(old(nextId), reviewId, authorId, text)
      ensures State() == old(State()).(comments := old(comments) + [c], nextId := old(nextId) + 1)
    {
      c := Comment(nextId, reviewId, authorId, text);
      AppendFresh(comments, CommentId, c, nextId);
      comments := comments + [c];
      nextId := nextId + 1;
    }

    /** Saving a changed comment; review and author are read-only. */
    method ReplaceComment(c: Comment)
      requires Valid()
      requires exists x :: x in comments && x.id == c.id && x.reviewId == c.reviewId && x.authorId == c.authorId
      modifies this
      ensures Valid()
      ensures State() == old(State()).(comments := ReplaceBy(old(comments), CommentId, c))
    {
      ReplaceUnique(comments, CommentId, c, CommentId);
      comments := ReplaceBy(comments, CommentId, c);
    }

    /** `comment.delete()`. */
    method DeleteComment(id: nat)
      requires Valid()
      modifies this
      ensures Valid()
      ensures State() == CommentDeleted(old(State()), id)
    {
      CommentDeletedConsistent(State(), id);
      comments := CommentDeleted(State(), id).comments;
    }
  }
}
