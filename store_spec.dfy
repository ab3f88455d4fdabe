/**
  The tables behind `ArticleStore`, as one abstract value, and each store
  operation as one atomic transition of it (each SQL statement or transaction
  of internal/data/articles.go is one step).

  The schema is not part of this model. The transitions assume what the
  queries rely on: `articles.slug` is UNIQUE, `favorites_count` defaults to 0,
  ids come from a sequence that starts at 1 and never reuses a value, and a
  `favorites` row references its article with ON DELETE CASCADE.
 */
module StoreSpec {
  import opened Wrappers
  import opened Articles

  datatype StoreError = RecordNotFound | DuplicateSlug

  /** A row of the `articles` table (timestamps left out). */
  datatype Row = Row(
    slug: string,
    title: string,
    description: string,
    body: string,
    tagList: seq<string>,
    authorId: int,
    favoritesCount: int)

  /** A row of the `favorites` table: `userId` favourited `articleId`. */
  datatype Favorite = Favorite(userId: int, articleId: int)

  /** The store's tables and the next value of the id sequence. */
  datatype Db = Db(articles: map<int, Row>, favorites: set<Favorite>, nextId: int)

  /** The new tables after an operation, and what the operation returned. */
  datatype Outcome<T> = Outcome(db: Db, result: Result<T, StoreError>)

  /** The tables before any article is created. */
  const Empty: Db := Db(map[], {}, 1)

  // ---------------------------------------------------------------------------
  // The invariant

  /** The users who favourited `articleId`. */
  ghost function Favoriters(favorites: set<Favorite>, articleId: int): set<int> {
    set f | f in favorites && f.articleId == articleId :: f.userId
  }

  /** The central invariant: each counter is the number of users who favourited that article. */
  ghost predicate CountersAgree(db: Db) {
    forall id :: id in db.articles ==> db.articles[id].favoritesCount == |Favoriters(db.favorites, id)|
  }

  ghost predicate FavoritesReferenceArticles(db: Db) {
    forall f :: f in db.favorites ==> f.articleId in db.articles
  }

  ghost predicate IdsBelowNext(db: Db) {
    1 <= db.nextId && forall id :: id in db.articles ==> 1 <= id < db.nextId
  }

  ghost predicate SlugsUnique(articles: map<int, Row>) {
    forall i, j :: i in articles && j in articles && articles[i].slug == articles[j].slug ==> i == j
  }

  ghost predicate Valid(db: Db) {
    CountersAgree(db) && FavoritesReferenceArticles(db) && IdsBelowNext(db) && SlugsUnique(db.articles)
  }

  // ---------------------------------------------------------------------------
  // Lookups

  predicate SlugTaken(articles: map<int, Row>, slug: string) {
    exists id :: id in articles && articles[id].slug == slug
  }

  /** `SELECT id FROM articles WHERE slug = $1`. */
  ghost function FindBySlug(articles: map<int, Row>, slug: string): (r: Option<int>)
    ensures r.Some? ==> r.value in articles && articles[r.value].slug == slug
    ensures r.None? <==> !SlugTaken(articles, slug)
  {
    if SlugTaken(articles, slug) then
      Some(var id :| id in articles && articles[id].slug == slug; id)
    else
      None
  }

  /** The `Article` a query returns for a row. */
  function ArticleOf(id: int, row: Row, favorited: bool): Article {
    Article(id, row.slug, row.title, row.description, row.body, row.tagList,
            row.favoritesCount, favorited, row.authorId)
  }

  /** `GetBySlug`: the article with that slug, flagged with whether the current user favourited it. */
  ghost function GetBySlug(db: Db, slug: string, currentUser: CurrentUser): (r: Result<Article, StoreError>)
    ensures r.Err? <==> !SlugTaken(db.articles, slug)
    ensures r.Err? ==> r.error == RecordNotFound
    ensures r.Ok? ==> r.value.id in db.articles && r.value.slug == slug
    ensures r.Ok? ==> r.value == ArticleOf(r.value.id, db.articles[r.value.id], r.value.favorited)
    ensures r.Ok? ==> (r.value.favorited <==>
                        !currentUser.IsAnonymous() && Favorite(currentUser.id, r.value.id) in db.favorites)
  {
    match FindBySlug(db.articles, slug)
    case None => Err(RecordNotFound)
    case Some(id) =>
      Ok(ArticleOf(id, db.articles[id],
                   !currentUser.IsAnonymous() && Favorite(currentUser.id, id) in db.favorites))
  }

  // ---------------------------------------------------------------------------
  // Frames

  /** `after` differs from `before` at most in the counter of article `id`. */
  ghost predicate OnlyCounterOf(before: Db, after: Db, id: int) {
    && id in before.articles
    && after.articles.Keys == before.articles.Keys
    && after.nextId == before.nextId
    && after.articles[id] == before.articles[id].(favoritesCount := after.articles[id].favoritesCount)
    && forall other :: other in before.articles && other != id ==> after.articles[other] == before.articles[other]
  }

  /** `after` and `before` hold the same favourites apart from `f`. */
  ghost predicate OnlyPair(before: set<Favorite>, after: set<Favorite>, f: Favorite) {
    after - {f} == before - {f}
  }

  // ---------------------------------------------------------------------------
  // The operations

  /** `Insert`, given the article with its generated slug. */
  ghost function Insert(db: Db, article: Article): (r: Outcome<int>)
    requires IdsBelowNext(db)
    ensures r.result.Err? <==> SlugTaken(db.articles, article.slug)
    ensures r.result.Err? ==> r.db == db && r.result.error == DuplicateSlug
    ensures r.result.Ok? ==>
      var id := r.result.value;
      && id !in db.articles
      && r.db.articles == db.articles[id := Row(article.slug, article.title, article.description,
                                                article.body, article.tagList, article.authorId, 0)]
      && r.db.favorites == db.favorites
      && r.db.nextId > id
  {
    if SlugTaken(db.articles, article.slug) then
      Outcome(db, Err(DuplicateSlug))
    else
      var row := Row(article.slug, article.title, article.description, article.body,
                     article.tagList, article.authorId, 0);
      Outcome(db.(articles := db.articles[db.nextId := row], nextId := db.nextId + 1), Ok(db.nextId))
  }

  /** `FavoriteBySlug`: adds the pair if absent, bumps the counter only if a row was inserted. */
  ghost function FavoriteBySlug(db: Db, slug: string, userId: int): (r: Outcome<Article>)
    ensures !SlugTaken(db.articles, slug) ==> r == Outcome(db, Err(RecordNotFound))
    ensures SlugTaken(db.articles, slug) ==>
      var id := FindBySlug(db.articles, slug).value;
      var f := Favorite(userId, id);
      && f in r.db.favorites
      && OnlyPair(db.favorites, r.db.favorites, f)
      && OnlyCounterOf(db, r.db, id)
      && r.db.articles[id].favoritesCount
           == db.articles[id].favoritesCount + (if f in db.favorites then 0 else 1)
      && r.result == GetBySlug(r.db, slug, SignedIn(userId))
  {
    match FindBySlug(db.articles, slug)
    case None => Outcome(db, Err(RecordNotFound))
    case Some(id) =>
      var f := Favorite(userId, id);
      var rowsAffected := if f in db.favorites then 0 else 1;
      var row := db.articles[id];
      var articles := if rowsAffected == 1
                      then db.articles[id := row.(favoritesCount := row.favoritesCount + 1)]
                      else db.articles;
      var after := db.(articles := articles, favorites := db.favorites + {f});
      Outcome(after, GetBySlug(after, slug, SignedIn(userId)))
  }

  /** `UnfavoriteBySlug`: removes the pair; lowers a positive counter only if a row was deleted. */
  ghost function UnfavoriteBySlug(db: Db, slug: string, userId: int): (r: Outcome<Article>)
    ensures !SlugTaken(db.articles, slug) ==> r == Outcome(db, Err(RecordNotFound))
    ensures SlugTaken(db.articles, slug) ==>
      var id := FindBySlug(db.articles, slug).value;
      var f := Favorite(userId, id);
      && f !in r.db.favorites
      && OnlyPair(db.favorites, r.db.favorites, f)
      && OnlyCounterOf(db, r.db, id)
      && r.db.articles[id].favoritesCount
           == (if f in db.favorites && db.articles[id].favoritesCount > 0
               then db.articles[id].favoritesCount - 1
               else db.articles[id].favoritesCount)
      && r.result == GetBySlug(r.db, slug, SignedIn(userId))
  {
    match FindBySlug(db.articles, slug)
    case None => Outcome(db, Err(RecordNotFound))
    case Some(id) =>
      var f := Favorite(userId, id);
      var rowsAffected := if f in db.favorites then 1 else 0;
      var row := db.articles[id];
      var articles := if rowsAffected == 1 && row.favoritesCount > 0
                      then db.articles[id := row.(favoritesCount := row.favoritesCount - 1)]
                      else db.articles;
      var after := db.(articles := articles, favorites := db.favorites - {f});
      Outcome(after, GetBySlug(after, slug, SignedIn(userId)))
  }

  /** `DELETE FROM articles WHERE slug = $1 AND author_id = $2`; the cascade drops the article's favourites. */
  ghost function DeleteBySlug(db: Db, slug: string, authorId: int): (r: Outcome<()>)
    requires SlugsUnique(db.articles)
    ensures r.result.Ok? <==>
              exists id :: id in db.articles && db.articles[id].slug == slug && db.articles[id].authorId == authorId
    ensures r.result.Err? ==> r.db == db && r.result.error == RecordNotFound
    ensures r.result.Ok? ==>
      var id := FindBySlug(db.articles, slug).value;
      && r.db.articles == db.articles - {id}
      && r.db.favorites == set f | f in db.favorites && f.articleId != id
      && r.db.nextId == db.nextId
  {
    var found := FindBySlug(db.articles, slug);
    if found.Some? && db.articles[found.value].authorId == authorId then
      var id := found.value;
      Outcome(db.(articles := db.articles - {id},
                  favorites := set f | f in db.favorites && f.articleId != id),
              Ok(()))
    else
      Outcome(db, Err(RecordNotFound))
  }

  /** Some article other than `id` has slug `slug`. */
  predicate SlugTakenByOther(articles: map<int, Row>, slug: string, id: int) {
    exists other :: other in articles && other != id && articles[other].slug == slug
  }

  /** `Update`: matches on the id alone and overwrites title, description, body and slug. */
  ghost function Update(db: Db, article: Article): (r: Outcome<()>)
    ensures article.id !in db.articles ==> r == Outcome(db, Err(RecordNotFound))
    ensures article.id in db.articles && SlugTakenByOther(db.articles, article.slug, article.id) ==>
              r == Outcome(db, Err(DuplicateSlug))
    ensures r.result.Ok? <==>
              article.id in db.articles && !SlugTakenByOther(db.articles, article.slug, article.id)
    ensures r.result.Ok? ==>
      var old_ := db.articles[article.id];
      && OnlyRowOf(db, r.db, article.id)
      && r.db.articles[article.id] == Row(article.slug, article.title, article.description, article.body,
                                         old_.tagList, old_.authorId, old_.favoritesCount)
  {
    if article.id !in db.articles then
      Outcome(db, Err(RecordNotFound))
    else if SlugTakenByOther(db.articles, article.slug, article.id) then
      Outcome(db, Err(DuplicateSlug))
    else
      var row := db.articles[article.id];
      var row' := row.(title := article.title, description := article.description,
                       body := article.body, slug := article.slug);
      Outcome(db.(articles := db.articles[article.id := row']), Ok(()))
  }

  /** `after` differs from `before` at most in the row of article `id`. */
  ghost predicate OnlyRowOf(before: Db, after: Db, id: int) {
    && after.articles.Keys == before.articles.Keys
    && after.favorites == before.favorites
    && after.nextId == before.nextId
    && forall other :: other in before.articles && other != id ==> after.articles[other] == before.articles[other]
  }

  // ---------------------------------------------------------------------------
  // Lemmas about the favourites relation

  lemma FavoritersMember(favorites: set<Favorite>, articleId: int, userId: int)
    ensures userId in Favoriters(favorites, articleId) <==> Favorite(userId, articleId) in favorites
  {
    if Favorite(userId, articleId) in favorites {
      assert Favorite(userId, articleId).userId == userId;
    }
  }

  /** Adding or removing pair `f` changes only the favouriters of `f`'s article, by `f`'s user. */
  lemma FavoritersAfterPairChange(before: set<Favorite>, after: set<Favorite>, f: Favorite, articleId: int)
    requires OnlyPair(before, after, f)
    ensures articleId != f.articleId ==> Favoriters(after, articleId) == Favoriters(before, articleId)
    ensures articleId == f.articleId && f in after ==>
              Favoriters(after, articleId) == Favoriters(before, articleId) + {f.userId}
    ensures articleId == f.articleId && f !in after ==>
              Favoriters(after, articleId) == Favoriters(before, articleId) - {f.userId}
  {
    forall u ensures u in Favoriters(after, articleId) <==> Favorite(u, articleId) in after {
      FavoritersMember(after, articleId, u);
    }
    forall u ensures u in Favoriters(before, articleId) <==> Favorite(u, articleId) in before {
      FavoritersMember(before, articleId, u);
    }
    forall u ensures Favorite(u, articleId) in after <==>
                     (Favorite(u, articleId) in before || Favorite(u, articleId) == f) && (Favorite(u, articleId) != f || f in after) {
      assert Favorite(u, articleId) != f ==> (Favorite(u, articleId) in after - {f} <==> Favorite(u, articleId) in before - {f});
    }
  }

  /** Whether the counter of `id` agrees, after a change that touches only that counter and pair `f`. */
  lemma CountersAgreeAfter(before: Db, after: Db, id: int, f: Favorite)
    requires CountersAgree(before)
    requires OnlyCounterOf(before, after, id) && OnlyPair(before.favorites, after.favorites, f) && f.articleId == id
    requires after.articles[id].favoritesCount == |Favoriters(after.favorites, id)|
    ensures CountersAgree(after)
  {
    forall other | other in after.articles && other != id
      ensures after.articles[other].favoritesCount == |Favoriters(after.favorites, other)|
    {
      FavoritersAfterPairChange(before.favorites, after.favorites, f, other);
    }
  }

  // ---------------------------------------------------------------------------
  // Every operation preserves the invariant

  lemma EmptyValid()
    ensures Valid(Empty)
  {
  }

  lemma FindUnique(articles: map<int, Row>, slug: string, id: int)
    requires SlugsUnique(articles) && id in articles && articles[id].slug == slug
    ensures FindBySlug(articles, slug) == Some(id)
  {
  }

  lemma InsertPreservesValid(db: Db, article: Article)
    requires Valid(db)
    ensures Valid(Insert(db, article).db)
  {
    var r := Insert(db, article);
    if r.result.Ok? {
      var id := r.result.value;
      assert Favoriters(db.favorites, id) == {} by {
        forall u | u in Favoriters(db.favorites, id) ensures false {
          FavoritersMember(db.favorites, id, u);
        }
      }
    }
  }

  lemma FavoritePreservesValid(db: Db, slug: string, userId: int)
    requires Valid(db)
    ensures Valid(FavoriteBySlug(db, slug, userId).db)
  {
    var r := FavoriteBySlug(db, slug, userId);
    if SlugTaken(db.articles, slug) {
      var id := FindBySlug(db.articles, slug).value;
      var f := Favorite(userId, id);
      FavoritersAfterPairChange(db.favorites, r.db.favorites, f, id);
      FavoritersMember(db.favorites, id, userId);
      CountersAgreeAfter(db, r.db, id, f);
    }
  }

  lemma UnfavoritePreservesValid(db: Db, slug: string, userId: int)
    requires Valid(db)
    ensures Valid(UnfavoriteBySlug(db, slug, userId).db)
  {
    var r := UnfavoriteBySlug(db, slug, userId);
    if SlugTaken(db.articles, slug) {
      var id := FindBySlug(db.articles, slug).value;
      var f := Favorite(userId, id);
      FavoritersAfterPairChange(db.favorites, r.db.favorites, f, id);
      FavoritersMember(db.favorites, id, userId);
      CountersAgreeAfter(db, r.db, id, f);
    }
  }

  lemma DeletePreservesValid(db: Db, slug: string, authorId: int)
    requires Valid(db)
    ensures Valid(DeleteBySlug(db, slug, authorId).db)
  {
    var r := DeleteBySlug(db, slug, authorId);
    if r.result.Ok? {
      var id := FindBySlug(db.articles, slug).value;
      forall other | other in r.db.articles
        ensures r.db.articles[other].favoritesCount == |Favoriters(r.db.favorites, other)|
      {
        assert Favoriters(r.db.favorites, other) == Favoriters(db.favorites, other);
      }
    }
  }

  lemma UpdatePreservesValid(db: Db, article: Article)
    requires Valid(db)
    ensures Valid(Update(db, article).db)
  {
  }

  // ---------------------------------------------------------------------------
  // Properties of the favourite operations

  /** Under the invariant the `favorites_count > 0` guard never blocks a decrement, and no counter goes negative. */
  lemma UnfavoriteGuardAlwaysHolds(db: Db, slug: string, userId: int)
    requires Valid(db) && SlugTaken(db.articles, slug)
    ensures var id := FindBySlug(db.articles, slug).value;
            Favorite(userId, id) in db.favorites ==> db.articles[id].favoritesCount > 0
  {
    var id := FindBySlug(db.articles, slug).value;
    FavoritersMember(db.favorites, id, userId);
  }

  lemma CountersNonNegative(db: Db)
    requires Valid(db)
    ensures forall id :: id in db.articles ==> db.articles[id].favoritesCount >= 0
  {
  }

  /** Favouriting twice has the effect of favouriting once. */
  lemma FavoriteIdempotent(db: Db, slug: string, userId: int)
    requires Valid(db)
    ensures var once := FavoriteBySlug(db, slug, userId);
            Valid(once.db) && FavoriteBySlug(once.db, slug, userId) == once
  {
    var once := FavoriteBySlug(db, slug, userId);
    FavoritePreservesValid(db, slug, userId);
    if SlugTaken(db.articles, slug) {
      var id := FindBySlug(db.articles, slug).value;
      FindUnique(once.db.articles, slug, id);
      var twice := FavoriteBySlug(once.db, slug, userId);
      assert twice.db.favorites == once.db.favorites;
      assert twice.db.articles == once.db.articles;
    }
  }

  /** Unfavouriting twice has the effect of unfavouriting once. */
  lemma UnfavoriteIdempotent(db: Db, slug: string, userId: int)
    requires Valid(db)
    ensures var once := UnfavoriteBySlug(db, slug, userId);
            Valid(once.db) && UnfavoriteBySlug(once.db, slug, userId) == once
  {
    var once := UnfavoriteBySlug(db, slug, userId);
    UnfavoritePreservesValid(db, slug, userId);
    if SlugTaken(db.articles, slug) {
      var id := FindBySlug(db.articles, slug).value;
      FindUnique(once.db.articles, slug, id);
      var twice := UnfavoriteBySlug(once.db, slug, userId);
      assert twice.db.favorites == once.db.favorites;
      assert twice.db.articles == once.db.articles;
    }
  }

  /** Unfavouriting undoes a favourite that added a new pair. */
  lemma UnfavoriteUndoesFavorite(db: Db, slug: string, userId: int)
    requires Valid(db) && SlugTaken(db.articles, slug)
    requires Favorite(userId, FindBySlug(db.articles, slug).value) !in db.favorites
    ensures var fav := FavoriteBySlug(db, slug, userId);
            Valid(fav.db) && UnfavoriteBySlug(fav.db, slug, userId).db == db
  {
    var id := FindBySlug(db.articles, slug).value;
    var fav := FavoriteBySlug(db, slug, userId);
    FavoritePreservesValid(db, slug, userId);
    FindUnique(fav.db.articles, slug, id);
    var back := UnfavoriteBySlug(fav.db, slug, userId);
    assert back.db.favorites == db.favorites;
    assert back.db.articles == db.articles;
  }

  /** Favouriting restores a pair that unfavouriting removed. */
  lemma FavoriteUndoesUnfavorite(db: Db, slug: string, userId: int)
    requires Valid(db) && SlugTaken(db.articles, slug)
    requires Favorite(userId, FindBySlug(db.articles, slug).value) in db.favorites
    ensures var unfav := UnfavoriteBySlug(db, slug, userId);
            Valid(unfav.db) && FavoriteBySlug(unfav.db, slug, userId).db == db
  {
    var id := FindBySlug(db.articles, slug).value;
    UnfavoriteGuardAlwaysHolds(db, slug, userId);
    var unfav := UnfavoriteBySlug(db, slug, userId);
    UnfavoritePreservesValid(db, slug, userId);
    FindUnique(unfav.db.articles, slug, id);
    var back := FavoriteBySlug(unfav.db, slug, userId);
    assert back.db.favorites == db.favorites;
    assert back.db.articles == db.articles;
  }

  /** The article `FavoriteBySlug` returns is the reloaded row, flagged as favourited. */
  lemma FavoriteReturnsFavorited(db: Db, slug: string, userId: int)
    requires Valid(db) && SlugTaken(db.articles, slug)
    ensures var id := FindBySlug(db.articles, slug).value;
            var r := FavoriteBySlug(db, slug, userId);
            r.result == Ok(ArticleOf(id, r.db.articles[id], true))
  {
    var id := FindBySlug(db.articles, slug).value;
    FindUnique(FavoriteBySlug(db, slug, userId).db.articles, slug, id);
  }

  /** The article `UnfavoriteBySlug` returns is the reloaded row, flagged as not favourited. */
  lemma UnfavoriteReturnsUnfavorited(db: Db, slug: string, userId: int)
    requires Valid(db) && SlugTaken(db.articles, slug)
    ensures var id := FindBySlug(db.articles, slug).value;
            var r := UnfavoriteBySlug(db, slug, userId);
            r.result == Ok(ArticleOf(id, r.db.articles[id], false))
  {
    var id := FindBySlug(db.articles, slug).value;
    FindUnique(UnfavoriteBySlug(db, slug, userId).db.articles, slug, id);
  }

  // ---------------------------------------------------------------------------
  // Reading back what the operations wrote

  /** A freshly inserted article reads back with its fields, a zero counter and not favourited. */
  lemma InsertThenGet(db: Db, article: Article, currentUser: CurrentUser)
    requires Valid(db) && !SlugTaken(db.articles, article.slug)
    ensures var r := Insert(db, article);
            r.result.Ok? &&
            GetBySlug(r.db, article.slug, currentUser)
              == Ok(article.(id := r.result.value, favoritesCount := 0, favorited := false))
  {
    var r := Insert(db, article);
    InsertPreservesValid(db, article);
    FindUnique(r.db.articles, article.slug, r.result.value);
    if currentUser.SignedIn? {
      assert Favorite(currentUser.id, r.result.value) !in r.db.favorites;
    }
  }

  /** After a successful delete the slug no longer resolves. */
  lemma DeleteThenGet(db: Db, slug: string, authorId: int, currentUser: CurrentUser)
    requires Valid(db)
    ensures var r := DeleteBySlug(db, slug, authorId);
            r.result.Ok? ==> GetBySlug(r.db, slug, currentUser) == Err(RecordNotFound)
  {
    var r := DeleteBySlug(db, slug, authorId);
    if r.result.Ok? {
      var id := FindBySlug(db.articles, slug).value;
      forall other | other in r.db.articles ensures r.db.articles[other].slug != slug {
      }
    }
  }

  /** After an update, the new slug resolves to the same article with the new text. */
  lemma UpdateThenGet(db: Db, article: Article, currentUser: CurrentUser)
    requires Valid(db)
    ensures var r := Update(db, article);
            r.result.Ok? ==>
              var got := GetBySlug(r.db, article.slug, currentUser);
              && got.Ok? && got.value.id == article.id
              && got.value.title == article.title && got.value.description == article.description
              && got.value.body == article.body
              && got.value.tagList == db.articles[article.id].tagList
              && got.value.favoritesCount == db.articles[article.id].favoritesCount
  {
    var r := Update(db, article);
    if r.result.Ok? {
      UpdatePreservesValid(db, article);
      FindUnique(r.db.articles, article.slug, article.id);
    }
  }
}
