/**
  Sequences of favourite and unfavourite requests on one article, each
  request one atomic `FavoriteBySlug` or `UnfavoriteBySlug` step. What the
  counter ends at depends only on each user's last request.
 */
module Scenarios {
  import opened StoreSpec

  datatype Action = FavoriteAction(userId: int) | UnfavoriteAction(userId: int)

  ghost function Apply(db: Db, slug: string, action: Action): Db {
    match action
    case FavoriteAction(u) => FavoriteBySlug(db, slug, u).db
    case UnfavoriteAction(u) => UnfavoriteBySlug(db, slug, u).db
  }

  /** The tables after the requests `actions`, in order, on the article `slug`. */
  ghost function Run(db: Db, slug: string, actions: seq<Action>): Db
    decreases |actions|
  {
    if actions == [] then db else Run(Apply(db, slug, actions[0]), slug, actions[1..])
  }

  /** Whether `userId` has the article favourited after `actions`, given whether they had before. */
  function FavoritedAfter(actions: seq<Action>, userId: int, before: bool): bool
    decreases |actions|
  {
    if actions == [] then before
    else FavoritedAfter(actions[1..], userId,
                        if actions[0].userId == userId then actions[0].FavoriteAction? else before)
  }

  function FavoriteAll(users: seq<int>): (actions: seq<Action>)
    ensures |actions| == |users|
    ensures forall k :: 0 <= k < |users| ==> actions[k] == FavoriteAction(users[k])
  {
    seq(|users|, k requires 0 <= k < |users| => FavoriteAction(users[k]))
  }

  function UnfavoriteAll(users: seq<int>): (actions: seq<Action>)
    ensures |actions| == |users|
    ensures forall k :: 0 <= k < |users| ==> actions[k] == UnfavoriteAction(users[k])
  {
    seq(|users|, k requires 0 <= k < |users| => UnfavoriteAction(users[k]))
  }

  /** The users among `users` whose last request in `actions` is a favourite. */
  function FavoritedAtEnd(users: set<int>, actions: seq<Action>): set<int> {
    set u | u in users && FavoritedAfter(actions, u, false)
  }

  predicate Distinct(users: seq<int>) {
    forall i, j :: 0 <= i < j < |users| ==> users[i] != users[j]
  }

  // ---------------------------------------------------------------------------

  lemma ApplyPreservesValid(db: Db, slug: string, action: Action)
    requires Valid(db)
    ensures Valid(Apply(db, slug, action))
  {
    match action {
      case FavoriteAction(u) => FavoritePreservesValid(db, slug, u);
      case UnfavoriteAction(u) => UnfavoritePreservesValid(db, slug, u);
    }
  }

  lemma {:induction false} RunPreservesValid(db: Db, slug: string, actions: seq<Action>)
    requires Valid(db)
    ensures Valid(Run(db, slug, actions))
    decreases |actions|
  {
    if actions != [] {
      ApplyPreservesValid(db, slug, actions[0]);
      RunPreservesValid(Apply(db, slug, actions[0]), slug, actions[1..]);
    }
  }

  /**
    The article stays where it is, its other fields are untouched, and a user
    favourites it at the end exactly when their last request says so.
   */
  lemma {:induction false} RunFavoriters(db: Db, slug: string, actions: seq<Action>, id: int, u: int)
    requires Valid(db) && id in db.articles && db.articles[id].slug == slug
    ensures var final := Run(db, slug, actions);
            && id in final.articles
            && final.articles[id] == db.articles[id].(favoritesCount := final.articles[id].favoritesCount)
            && ((u in Favoriters(final.favorites, id))
                  == FavoritedAfter(actions, u, u in Favoriters(db.favorites, id)))
    decreases |actions|
  {
    if actions != [] {
      var a := actions[0];
      var next := Apply(db, slug, a);
      var f := Favorite(a.userId, id);
      FindUnique(db.articles, slug, id);
      ApplyPreservesValid(db, slug, a);
      FavoritersAfterPairChange(db.favorites, next.favorites, f, id);
      assert u in Favoriters(next.favorites, id)
             <==> (if a.userId == u then a.FavoriteAction? else u in Favoriters(db.favorites, id));
      RunFavoriters(next, slug, actions[1..], id, u);
    }
  }

  /** A user who sends no request keeps their state. */
  lemma {:induction false} FavoritedAfterUntouched(actions: seq<Action>, userId: int, before: bool)
    requires forall k :: 0 <= k < |actions| ==> actions[k].userId != userId
    ensures FavoritedAfter(actions, userId, before) == before
    decreases |actions|
  {
    if actions != [] {
      FavoritedAfterUntouched(actions[1..], userId, before);
    }
  }

  lemma {:induction false} FavoritedAfterFavoriteAll(users: seq<int>, u: int, before: bool)
    ensures FavoritedAfter(FavoriteAll(users), u, before) == (before || u in users)
    decreases |users|
  {
    if users != [] {
      assert FavoriteAll(users)[1..] == FavoriteAll(users[1..]);
      FavoritedAfterFavoriteAll(users[1..], u, before || users[0] == u);
      assert u in users <==> users[0] == u || u in users[1..];
    }
  }

  lemma {:induction false} FavoritedAfterUnfavoriteAll(users: seq<int>, u: int, before: bool)
    ensures FavoritedAfter(UnfavoriteAll(users), u, before) == (before && u !in users)
    decreases |users|
  {
    if users != [] {
      assert UnfavoriteAll(users)[1..] == UnfavoriteAll(users[1..]);
      FavoritedAfterUnfavoriteAll(users[1..], u, before && users[0] != u);
      assert u in users <==> users[0] == u || u in users[1..];
    }
  }

  lemma {:induction false} DistinctCardinality(users: seq<int>)
    requires Distinct(users)
    ensures |set u | u in users| == |users|
    decreases |users|
  {
    if users != [] {
      var rest := users[1..];
      assert Distinct(rest) by {
        forall i, j | 0 <= i < j < |rest| ensures rest[i] != rest[j] {
          assert rest[i] == users[i + 1] && rest[j] == users[j + 1];
        }
      }
      DistinctCardinality(rest);
      assert users[0] !in rest by {
        forall j | 0 <= j < |rest| ensures rest[j] != users[0] {
          assert rest[j] == users[j + 1];
        }
      }
      assert (set u | u in users) == (set u | u in rest) + {users[0]} by {
        forall u ensures u in users <==> u == users[0] || u in rest {
          assert users == [users[0]] + rest;
        }
      }
    }
  }

  /**
    The concurrency test, sequentially: N distinct users favourite an article
    whose count is 0, which brings the count to N, and then all unfavourite it,
    which brings it back to 0.
   */
  lemma ManyUsersFavoriteThenUnfavorite(db: Db, slug: string, id: int, users: seq<int>)
    requires Valid(db) && id in db.articles && db.articles[id].slug == slug
    requires db.articles[id].favoritesCount == 0
    requires Distinct(users)
    ensures var mid := Run(db, slug, FavoriteAll(users));
            var end := Run(mid, slug, UnfavoriteAll(users));
            && id in mid.articles && mid.articles[id].favoritesCount == |users|
            && id in end.articles && end.articles[id].favoritesCount == 0
  {
    var mid := Run(db, slug, FavoriteAll(users));
    RunPreservesValid(db, slug, FavoriteAll(users));
    forall u ensures u in Favoriters(mid.favorites, id) <==> u in users {
      RunFavoriters(db, slug, FavoriteAll(users), id, u);
      FavoritedAfterFavoriteAll(users, u, u in Favoriters(db.favorites, id));
    }
    assert Favoriters(mid.favorites, id) == set u | u in users;
    DistinctCardinality(users);
    RunFavoriters(db, slug, FavoriteAll(users), id, 0);

    var end := Run(mid, slug, UnfavoriteAll(users));
    RunPreservesValid(mid, slug, UnfavoriteAll(users));
    forall u ensures u !in Favoriters(end.favorites, id) {
      RunFavoriters(mid, slug, UnfavoriteAll(users), id, u);
      FavoritedAfterUnfavoriteAll(users, u, u in Favoriters(mid.favorites, id));
    }
    assert Favoriters(end.favorites, id) == {};
    RunFavoriters(mid, slug, UnfavoriteAll(users), id, 0);
  }

  /**
    Counter consistency for any interleaving written out as a sequence: starting
    from zero, the counter ends at the number of users whose last request was a
    favourite.
   */
  lemma LastRequestDecides(db: Db, slug: string, id: int, users: set<int>, actions: seq<Action>)
    requires Valid(db) && id in db.articles && db.articles[id].slug == slug
    requires db.articles[id].favoritesCount == 0
    requires forall k :: 0 <= k < |actions| ==> actions[k].userId in users
    ensures var final := Run(db, slug, actions);
            id in final.articles
            && final.articles[id].favoritesCount == |FavoritedAtEnd(users, actions)|
  {
    var final := Run(db, slug, actions);
    RunPreservesValid(db, slug, actions);
    assert Favoriters(db.favorites, id) == {};
    forall u ensures u in Favoriters(final.favorites, id) <==> u in users && FavoritedAfter(actions, u, false) {
      RunFavoriters(db, slug, actions, id, u);
      if u !in users {
        FavoritedAfterUntouched(actions, u, false);
      }
    }
    assert Favoriters(final.favorites, id) == FavoritedAtEnd(users, actions);
    RunFavoriters(db, slug, actions, id, 0);
  }

  /**
    The favourite test: one user favouriting twice leaves the count at 1, and a
    second user brings it to 2; each response says the article is favourited.
   */
  lemma FavoriteTwiceThenOther(db: Db, slug: string, id: int, first: int, second: int)
    requires Valid(db) && id in db.articles && db.articles[id].slug == slug
    requires db.articles[id].favoritesCount == 0 && first != second
    ensures var r1 := FavoriteBySlug(db, slug, first);
            var r2 := FavoriteBySlug(r1.db, slug, first);
            var r3 := FavoriteBySlug(r2.db, slug, second);
            && r1.result.Ok? && r1.result.value.favorited && r1.result.value.favoritesCount == 1
            && r2.result.Ok? && r2.result.value.favorited && r2.result.value.favoritesCount == 1
            && r3.result.Ok? && r3.result.value.favorited && r3.result.value.favoritesCount == 2
  {
    assert Favoriters(db.favorites, id) == {};
    FindUnique(db.articles, slug, id);
    FavoritersMember(db.favorites, id, first);
    var r1 := FavoriteBySlug(db, slug, first);
    FavoritePreservesValid(db, slug, first);
    FavoriteReturnsFavorited(db, slug, first);
    FindUnique(r1.db.articles, slug, id);
    FavoriteIdempotent(db, slug, first);
    var r2 := FavoriteBySlug(r1.db, slug, first);
    FavoriteReturnsFavorited(r1.db, slug, first);
    FavoritersAfterPairChange(db.favorites, r1.db.favorites, Favorite(first, id), id);
    FavoritersMember(r2.db.favorites, id, second);
    var r3 := FavoriteBySlug(r2.db, slug, second);
    FavoriteReturnsFavorited(r2.db, slug, second);
  }
}
