/**
  `ArticleStore` over in-memory tables. Each method performs the statements of
  its Go counterpart in order, as one atomic step, and is proved to reach the
  state and the result that `StoreSpec` prescribes. Connection, context and
  transaction plumbing are not modelled.
 */
module Store {
  import opened Wrappers
  import opened Slugs
  import opened Articles
  import opened StoreSpec

  class ArticleStore {
    var articles: map<int, Row>
    var favorites: set<Favorite>
    var nextId: int

    ghost function State(): Db
      reads this
    {
      Db(articles, favorites, nextId)
    }

    ghost predicate Valid()
      reads this
    {
      StoreSpec.Valid(State())
    }

    /** A store over empty tables. */
    constructor ()
      ensures Valid() && State() == Empty
    {
      articles, favorites, nextId := map[], {}, 1;
    }

    /** `Insert`: generates the slug, then inserts the row; the caller's article receives slug and id. */
    method Insert(article: Article, draws: seq<Draw>) returns (stored: Article, err: Option<StoreError>)
      requires Valid() && |draws| == SuffixLength
      modifies this
      ensures Valid()
      ensures stored.slug == Slug(article.title, Drawn(draws))
      ensures var r := StoreSpec.Insert(old(State()), article.(slug := stored.slug));
              && State() == r.db
              && (r.result.Ok? ==> err == None && stored == article.(slug := stored.slug, id := r.result.value))
              && (r.result.Err? ==> err == Some(r.result.error) && stored == article.(slug := stored.slug))
    {
      var withSlug := GenerateSlug(article, draws);
      stored, err := InsertRow(withSlug);
    }

    /** The `INSERT INTO articles ... RETURNING id` statement of `Insert`. */
    method InsertRow(article: Article) returns (stored: Article, err: Option<StoreError>)
      requires Valid()
      modifies this
      ensures Valid()
      ensures var r := StoreSpec.Insert(old(State()), article);
              && State() == r.db
              && (r.result.Ok? ==> err == None && stored == article.(id := r.result.value))
              && (r.result.Err? ==> err == Some(r.result.error) && stored == article)
    {
      if exists id :: id in articles && articles[id].slug == article.slug {
        stored, err := article, Some(DuplicateSlug);
      } else {
        var id := nextId;
        articles := articles[id := Row(article.slug, article.title, article.description, article.body,
                                       article.tagList, article.authorId, 0)];
        nextId := nextId + 1;
        stored, err := article.(id := id), None;
      }
      StoreSpec.InsertPreservesValid(old(State()), article);
    }

    /** `checkArticleFavorited`: whether the pair is in the favourites table. */
    method CheckArticleFavorited(articleId: int, userId: int) returns (favorited: bool)
      ensures favorited <==> userId in Favoriters(favorites, articleId)
    {
      FavoritersMember(favorites, articleId, userId);
      favorited := Favorite(userId, articleId) in favorites;
    }

    /** `GetBySlug`: looks the article up, then asks for the favourite flag unless the user is anonymous. */
    method GetBySlug(slug: string, currentUser: CurrentUser) returns (r: Result<Article, StoreError>)
      requires Valid()
      ensures r == StoreSpec.GetBySlug(State(), slug, currentUser)
    {
      if id :| id in articles && articles[id].slug == slug {
        FindUnique(articles, slug, id);
        var favorited := false;
        if !currentUser.IsAnonymous() {
          favorited := CheckArticleFavorited(id, currentUser.id);
          FavoritersMember(favorites, id, currentUser.id);
        }
        r := Ok(ArticleOf(id, articles[id], favorited));
      } else {
        r := Err(RecordNotFound);
      }
    }

    /** `FavoriteBySlug`. */
    method FavoriteBySlug(slug: string, userId: int) returns (r: Result<Article, StoreError>)
      requires Valid()
      modifies this
      ensures Valid()
      ensures Outcome(State(), r) == StoreSpec.FavoriteBySlug(old(State()), slug, userId)
    {
      if id :| id in articles && articles[id].slug == slug {
        FindUnique(articles, slug, id);
        var f := Favorite(userId, id);
        // INSERT ... ON CONFLICT DO NOTHING
        var rowsAffected := if f in favorites then 0 else 1;
        favorites := favorites + {f};
        if rowsAffected == 1 {
          var row := articles[id];
          articles := articles[id := row.(favoritesCount := row.favoritesCount + 1)];
        }
        FavoritePreservesValid(old(State()), slug, userId);
        r := GetBySlug(slug, SignedIn(userId));
      } else {
        r := Err(RecordNotFound);
      }
    }

    /** `UnfavoriteBySlug`. */
    method UnfavoriteBySlug(slug: string, userId: int) returns (r: Result<Article, StoreError>)
      requires Valid()
      modifies this
      ensures Valid()
      ensures Outcome(State(), r) == StoreSpec.UnfavoriteBySlug(old(State()), slug, userId)
    {
      if id :| id in articles && articles[id].slug == slug {
        FindUnique(articles, slug, id);
        var f := Favorite(userId, id);
        // DELETE FROM favorites WHERE user_id = $1 AND article_id = $2
        var rowsAffected := if f in favorites then 1 else 0;
        favorites := favorites - {f};
        if rowsAffected == 1 {
          // UPDATE ... WHERE id = $1 AND favorites_count > 0
          var row := articles[id];
          if row.favoritesCount > 0 {
            articles := articles[id := row.(favoritesCount := row.favoritesCount - 1)];
          }
        }
        UnfavoritePreservesValid(old(State()), slug, userId);
        r := GetBySlug(slug, SignedIn(userId));
      } else {
        r := Err(RecordNotFound);
      }
    }

    /** `DeleteBySlug`: deletes the article only if the slug and the author both match. */
    method DeleteBySlug(slug: string, authorId: int) returns (err: Option<StoreError>)
      requires Valid()
      modifies this
      ensures Valid()
      ensures var r := StoreSpec.DeleteBySlug(old(State()), slug, authorId);
              State() == r.db && (err == None <==> r.result.Ok?)
              && (r.result.Err? ==> err == Some(r.result.error))
    {
      if id :| id in articles && articles[id].slug == slug && articles[id].authorId == authorId {
        FindUnique(articles, slug, id);
        articles := articles - {id};
        favorites := set f | f in favorites && f.articleId != id;
        err := None;
      } else {
        err := Some(RecordNotFound);
      }
      DeletePreservesValid(old(State()), slug, authorId);
    }

    /** `Update`: overwrites title, description, body and slug of the article with that id. */
    method Update(article: Article) returns (err: Option<StoreError>)
      requires Valid()
      modifies this
      ensures Valid()
      ensures var r := StoreSpec.Update(old(State()), article);
              State() == r.db && (err == None <==> r.result.Ok?)
              && (r.result.Err? ==> err == Some(r.result.error))
    {
      if article.id !in articles {
        err := Some(RecordNotFound);
      } else if exists other :: other in articles && other != article.id && articles[other].slug == article.slug {
        err := Some(DuplicateSlug);
      } else {
        var row := articles[article.id];
        articles := articles[article.id := row.(title := article.title, description := article.description,
                                               body := article.body, slug := article.slug)];
        err := None;
      }
      UpdatePreservesValid(old(State()), article);
    }
  }
}
