# Article store of realworld-backend, in Dafny

This project models the article core of the realworld-backend API server
(`internal/data/articles.go`). It covers:

- **Slug assignment** (`Article.GenerateSlug`, `randomString`). The title goes
  through a fixed pipeline: ASCII lower-casing, spaces to hyphens, removal of
  everything outside `[a-z0-9-]`, collapse of hyphen runs, and trimming of
  edge hyphens. Then `-` and six characters drawn from `a-z0-9` are appended.
  Each stage is a function with its own contract: the character-by-character
  stages are recursive, and `Trim` composes `TrimLeft` and `TrimRight`. `RandomString`
  and `GenerateSlug` are methods that perform these steps in order, and each
  is proved equal to the function.
- **Article validation** (`ValidateArticle`). A `Validator` class keeps the
  error list, and `Check` appends a message when its condition fails. The
  list of messages holds only the four messages, in the order of the checks.
  Each message is present iff its check fails, and the list is empty iff the
  article is valid.
- **The `ArticleStore`** (`Insert`, `GetBySlug`, `checkArticleFavorited`,
  `FavoriteBySlug`, `UnfavoriteBySlug`, `DeleteBySlug`, `Update`). Module
  `StoreSpec` gives the tables as one value `Db`: an `articles` map from id to
  row, a `favorites` set of (user, article) pairs, and the next id of the
  sequence. Every operation is one atomic transition of that value.
  - The central invariant is `CountersAgree`: each article's
    `favorites_count` equals the number of users who favourited it. Three
    referential and uniqueness facts go with it.
  - Every transition preserves the invariant.
  - Class `Store.ArticleStore` holds the tables as fields. Its methods run
    the statements of the Go code in order: the `rowsAffected` tests that
    guard each counter update, the reload through `GetBySlug`, and the
    author-qualified delete. Each method is proved to reach the state and
    return the result that the `StoreSpec` transition prescribes.
- **Traces** (module `Scenarios`). A sequence of favourite and unfavourite
  requests on one article, each request one atomic transaction. The counter
  ends at the number of users whose last request was a favourite. In
  particular N distinct users favouriting and then unfavouriting take it from
  0 to N and back to 0: this is the sequential content of the concurrency
  test.

Randomness is a parameter: `draws: seq<Draw>` stands for the values
`rand.Intn(36)` returns. The SQL database, `context` timeouts and the
connection pool are replaced by the abstract tables. A transaction that
commits is one step, and a transaction that fails leaves the tables
unchanged.

The schema is not part of this model. The store assumes the facts its
queries depend on:

- `articles.slug` is UNIQUE (a duplicate makes `Insert` or `Update` fail,
  modelled as `DuplicateSlug`);
- `favorites_count` defaults to 0;
- ids come from a sequence that starts at 1;
- `(user_id, article_id)` is the key of `favorites`, which makes
  `ON CONFLICT DO NOTHING` meaningful;
- `favorites` rows cascade on article delete.

The `validator` package is not part of this model either.
`NotEmptyOrWhitespace` is taken to mean "some character is not ASCII white
space", and `Unique` to mean "pairwise distinct". `Check` is taken to append
its message to the error list, which is what the tests' expected `errors`
arrays show.

The code has no version column, and `ErrEditConflict`
(internal/data/store.go:10) is never used. `Update` matches on `id` alone
(internal/data/articles.go:284) and returns not-found only when the id is
absent (internal/data/articles.go:299-303).

## Model

| member | source | states |
|---|---|---|
| Slugs.ToLower | internal/data/articles.go:45 | the lower-cased title has the same length, and each character is the ASCII lower-case of the original |
| Slugs.ReplaceSpaces | internal/data/articles.go:46 | same length; every space becomes `-`, every other character is kept |
| Slugs.KeepSlugChars | internal/data/articles.go:48-50 | the result holds only `[a-z0-9-]`, is no longer than the input, and keeps every occurrence of each of those characters, hyphens included |
| Slugs.KeepSlugCharsConcat | internal/data/articles.go:48-50 | the filter distributes over concatenation, so the kept characters stay in their original order |
| Slugs.KeepSlugCharsOne | internal/data/articles.go:48-50 | a single character is kept iff it is in `[a-z0-9-]` |
| Slugs.KeepSlugCharsDropsOne | internal/data/articles.go:48-50 | a foreign character between slug characters disappears and its neighbours become adjacent |
| Slugs.CollapseHyphens | internal/data/articles.go:52-54 | no two adjacent hyphens remain; the first character is kept, no character is invented, and a hyphen remains iff the input had one |
| Slugs.TrimLeft | internal/data/articles.go:57 | the result is a suffix of the input, everything cut off was a hyphen, and it does not start with one |
| Slugs.TrimRight | internal/data/articles.go:57 | the result is a prefix of the input, everything cut off was a hyphen, and it does not end with one |
| Slugs.Trim | internal/data/articles.go:57 | the result is a slice of the input with no hyphen at either end, and everything cut off on either side is hyphens |
| Slugs.SlugBase | internal/data/articles.go:44-57 | the normalised title uses only `[a-z0-9-]`, has no `--` and no edge hyphen |
| Slugs.Slug | internal/data/articles.go:59-62 | the slug is the base, `-`, then the suffix, of length base+7; it uses only `[a-z0-9-]`, has no `--`, does not end in `-`, and starts with no `-` when the base is non-empty |
| Slugs.JoinSuffix | internal/data/articles.go:59-60 | joining a slug base and a valid suffix with `-` uses only `[a-z0-9-]`, creates no `--` and does not end in `-` |
| Slugs.Drawn | internal/data/articles.go:66-73 | the suffix has one character per draw, namely the charset's character at that draw, always a lower-case letter or digit |
| Slugs.CharsetIsLowerAlnum | internal/data/articles.go:67 | the 36-character alphabet holds exactly the lower-case letters and digits |
| Slugs.AlnumsKeepSlugChars | internal/data/articles.go:48-50 | removing non-slug characters loses no letter or digit |
| Slugs.AlnumsCollapseHyphens | internal/data/articles.go:52-54 | collapsing hyphen runs loses no letter or digit |
| Slugs.AlnumsTrim | internal/data/articles.go:57 | trimming edge hyphens loses no letter or digit |
| Slugs.SlugBaseContent | internal/data/articles.go:44-57 | the normalised title keeps exactly the letters and digits of the lower-cased title, in order |
| Slugs.SlugBaseEmptyIff | internal/data/articles.go:44-60 | the base is empty (so the slug is `-` plus the suffix) iff the title holds no ASCII letter or digit |
| Slugs.SlugBaseOfSlugBase | internal/data/articles.go:44-57 | a string that already has slug-base shape normalises to itself |
| Slugs.SlugBaseIdempotent | internal/data/articles.go:44-57 | normalising a normalised title changes nothing |
| Slugs.SlugBaseOfTwoWords | internal/data/articles.go:44-57 | two non-empty letter/digit words separated by any non-empty mix of spaces and hyphens normalise to the words joined by exactly one `-` |
| Slugs.CollapseTwoWords | internal/data/articles.go:52-54 | a run of hyphens between two words collapses to a single `-` |
| Slugs.CollapseHyphenRun | internal/data/articles.go:52-54 | a hyphen run followed by a non-hyphen becomes one `-` |
| Slugs.CollapseAfterLetter | internal/data/articles.go:52-54 | collapsing leaves a leading non-hyphen character untouched |
| Slugs.CollapseAfterWord | internal/data/articles.go:52-54 | collapsing leaves a leading letter/digit word untouched |
| Slugs.HyphenateTwoWords | internal/data/articles.go:45-46 | lower-casing and hyphenating keeps letter/digit words and turns each separator character into `-` |
| Slugs.JoinedWordsTrimmed | internal/data/articles.go:57 | trimming does not touch two words joined by `-` |
| Slugs.SlugBaseOfPunctuatedWords | internal/data/articles.go:44-57 | a title whose hyphenated lower-case form is a slug base with one foreign character inserted normalises to that base; the hyphens around the character stay |
| Slugs.SlugBaseOfKept | internal/data/articles.go:44-57 | a title whose filtered form is already a slug base normalises to it |
| Slugs.AliceTitle | cmd/api/articles_test.go:215 | "Alice's Article" gives `alices-article` |
| Slugs.BobTitle | cmd/api/articles_test.go:616 | "Bob's Article" gives `bobs-article` |
| Slugs.SlugBaseOfWords | internal/data/articles.go:44-57 | a title whose lower-cased, hyphenated form is already a slug base normalises to exactly that form |
| Slugs.CreatedTitle | cmd/api/articles_test.go:86-90 | "Test Article" gets the slug prefix `test-article`, as the creation test expects |
| Slugs.UpdatedTitle | cmd/api/articles_test.go:666-685 | "Updated Title" gets the slug prefix `updated-title`, as the update test expects |
| Articles.RandomString | internal/data/articles.go:66-74 | the buffer filled draw by draw is the string `Drawn(draws)`, of the requested length |
| Articles.GenerateSlug | internal/data/articles.go:44-63 | only the slug changes; it becomes `Slug(title, Drawn(draws))`, whose last six characters are a valid suffix |
| Validation.ArticleErrors | internal/data/articles.go:31-41 | each of the four messages is present iff its check fails; no other message occurs; the messages appear in the order of the checks, none twice; no messages iff the article is valid |
| Validation.Validator.constructor | cmd/api/articles.go:36 | `validator.New()` starts with no errors |
| Validation.Validator.Valid | cmd/api/articles.go:38 | `v.Valid()` holds iff no message was recorded |
| Validation.Validator.Check | internal/data/articles.go:33-40 | the message is appended exactly when the condition is false |
| Validation.ValidateArticle | internal/data/articles.go:31-41 | the validator's errors gain exactly `ArticleErrors(article)` |
| Validation.ValidateNew | cmd/api/articles.go:36-41 | a fresh validator is valid after validation iff the article passes all four checks; its errors are `ArticleErrors(article)` |
| Validation.EmptyTitle | cmd/api/articles_test.go:107-123 | an empty title with the other fields fine yields exactly the title message |
| Validation.DuplicateTags | cmd/api/articles_test.go:148-166 | tags `test, test, golang` yield exactly the tag-list message |
| StoreSpec.FindBySlug | internal/data/articles.go:181-190 | finds an article with that slug, or none iff no article has it |
| StoreSpec.GetBySlug | internal/data/articles.go:103-153 | not-found iff no article has the slug; otherwise the stored row, with favorited iff the user is signed in and the pair exists |
| StoreSpec.Insert | internal/data/articles.go:80-100 | fails with a duplicate iff the slug is taken, changing nothing; otherwise adds the row with count 0 under a fresh id and leaves favourites unchanged |
| StoreSpec.FavoriteBySlug | internal/data/articles.go:170-212 | not-found with no change when the slug is absent; otherwise the pair is present afterwards, no other pair and no other article changes, the counter rises by 1 iff the pair was new, and the result is the reloaded article |
| StoreSpec.UnfavoriteBySlug | internal/data/articles.go:215-257 | not-found with no change when the slug is absent; otherwise the pair is absent afterwards, nothing else changes, the counter falls by 1 iff a pair was deleted and it was positive, and the result is the reloaded article |
| StoreSpec.DeleteBySlug | internal/data/articles.go:259-278 | succeeds iff an article with that slug has that author; then removes it and its favourites; otherwise not-found with no change |
| StoreSpec.Update | internal/data/articles.go:280-309 | not-found iff the id is absent, duplicate iff another article has the slug; otherwise overwrites title, description, body and slug of that row, keeping tags, author, counter and every other row |
| StoreSpec.FavoritersMember | internal/data/articles.go:155-167 | a user is among an article's favouriters iff the pair is in the favourites table |
| StoreSpec.FavoritersAfterPairChange | internal/data/articles.go:192-196 | adding or removing one pair changes only that article's favouriters, by that one user |
| StoreSpec.FindUnique | internal/data/articles.go:182-183 | with unique slugs, the lookup returns the one article that has the slug |
| StoreSpec.EmptyValid | internal/data/articles.go:76-79 | the empty store satisfies the invariant |
| StoreSpec.InsertPreservesValid | internal/data/articles.go:80-100 | insertion keeps every counter equal to its number of favouriters, along with ids and slug uniqueness |
| StoreSpec.FavoritePreservesValid | internal/data/articles.go:170-212 | favouriting keeps every counter equal to its number of favouriters |
| StoreSpec.UnfavoritePreservesValid | internal/data/articles.go:215-257 | unfavouriting keeps every counter equal to its number of favouriters |
| StoreSpec.DeletePreservesValid | internal/data/articles.go:259-278 | deletion (with its cascade) keeps the invariant |
| StoreSpec.UpdatePreservesValid | internal/data/articles.go:280-309 | update keeps the invariant, slug uniqueness included |
| StoreSpec.UnfavoriteGuardAlwaysHolds | internal/data/articles.go:244-246 | whenever a pair exists its article's count is positive, so the `favorites_count > 0` guard never blocks a decrement |
| StoreSpec.CountersNonNegative | internal/data/articles.go:245 | no counter is ever negative |
| StoreSpec.FavoriteIdempotent | internal/data/articles.go:191-203 | favouriting a second time returns the same article and leaves the tables as after the first time |
| StoreSpec.UnfavoriteIdempotent | internal/data/articles.go:236-248 | unfavouriting a second time returns the same article and leaves the tables as after the first time |
| StoreSpec.UnfavoriteUndoesFavorite | internal/data/articles.go:170-257 | unfavouriting right after a favourite that added a pair restores the original tables |
| StoreSpec.FavoriteUndoesUnfavorite | internal/data/articles.go:170-257 | favouriting right after an unfavourite that removed a pair restores the original tables |
| StoreSpec.FavoriteReturnsFavorited | internal/data/articles.go:210-211 | the article returned by a favourite is the reloaded row, flagged favorited |
| StoreSpec.UnfavoriteReturnsUnfavorited | internal/data/articles.go:255-256 | the article returned by an unfavourite is the reloaded row, flagged not favorited |
| StoreSpec.InsertThenGet | internal/data/articles.go:80-153 | an inserted article reads back by its slug with its own fields, count 0 and not favorited, for any user |
| StoreSpec.DeleteThenGet | internal/data/articles.go:259-278 | after a successful delete, the slug no longer resolves |
| StoreSpec.UpdateThenGet | internal/data/articles.go:280-309 | after a successful update, the new slug resolves to the same id with the new text, old tags and old count |
| Articles.CurrentUser.IsAnonymous | internal/data/articles.go:145 | true exactly for the anonymous sentinel, never for a signed-in user |
| Store.ArticleStore.constructor | internal/data/articles.go:76-79 | a new store is empty and satisfies the invariant |
| Store.ArticleStore.Insert | internal/data/articles.go:80-100 | the caller's article gets the generated slug, and the id on success; the tables become those of `StoreSpec.Insert`; the invariant is kept |
| Store.ArticleStore.InsertRow | internal/data/articles.go:83-98 | the `INSERT ... RETURNING id` step reaches `StoreSpec.Insert`'s state and result |
| Store.ArticleStore.CheckArticleFavorited | internal/data/articles.go:155-167 | true iff the user is among the article's favouriters |
| Store.ArticleStore.GetBySlug | internal/data/articles.go:103-153 | returns exactly `StoreSpec.GetBySlug` on the current tables, skipping the favourite query for an anonymous user |
| Store.ArticleStore.FavoriteBySlug | internal/data/articles.go:170-212 | the `rowsAffected`-guarded increment and reload reach `StoreSpec.FavoriteBySlug`'s state and result, keeping the invariant |
| Store.ArticleStore.UnfavoriteBySlug | internal/data/articles.go:215-257 | the guarded decrement and reload reach `StoreSpec.UnfavoriteBySlug`'s state and result, keeping the invariant |
| Store.ArticleStore.DeleteBySlug | internal/data/articles.go:259-278 | reaches `StoreSpec.DeleteBySlug`'s state; reports not-found exactly when that transition fails |
| Store.ArticleStore.Update | internal/data/articles.go:280-309 | reaches `StoreSpec.Update`'s state and reports its error |
| Scenarios.RunPreservesValid | internal/data/articles.go:170-257 | any sequence of favourite and unfavourite requests keeps the invariant |
| Scenarios.RunFavoriters | internal/data/articles.go:170-257 | after a sequence of requests the article is still there with unchanged fields, and a user favourites it iff their last request was a favourite (or they sent none and did before) |
| Scenarios.FavoritedAfterUntouched | internal/data/articles.go:192-200 | a user who sends no request keeps their favourite state |
| Scenarios.FavoritedAfterFavoriteAll | cmd/api/articles_test.go:526-554 | after everyone in `users` favourites, a user favourites iff they did before or are in `users` |
| Scenarios.FavoritedAfterUnfavoriteAll | cmd/api/articles_test.go:564-593 | after everyone in `users` unfavourites, a user favourites iff they did before and are not in `users` |
| Scenarios.DistinctCardinality | cmd/api/articles_test.go:500-524 | N distinct users form a set of N |
| Scenarios.ManyUsersFavoriteThenUnfavorite | cmd/api/articles_test.go:490-602 | N distinct users favouriting an article with count 0 bring it to N; all of them unfavouriting then bring it to 0 |
| Scenarios.LastRequestDecides | internal/data/articles.go:170-257 | from count 0, any sequence of requests leaves the count equal to the number of users whose last request was a favourite |
| Scenarios.FavoriteTwiceThenOther | cmd/api/articles_test.go:278-341 | one user favouriting twice gives count 1 both times, a second user gives 2, and each response is flagged favorited |

## Left out

- SQL, `pgx`, the connection pool, `context` timeouts and transaction plumbing: each committed statement or transaction is one atomic step of the abstract tables. Storage errors other than not-found and duplicate slug are not modelled.
- Concurrency: interleavings of transactions are not modelled. The concurrency test is stated as a sequential trace. The model also folds the reload through `GetBySlug`, which runs after the commit and outside the transaction (internal/data/articles.go:211, 256), into the same atomic step as the favourite or unfavourite. Under concurrency the returned article may already show other users' changes.
- Randomness: `rand.Intn` is replaced by the `draws` parameter.
- Slug collisions: the code declares no duplicate-slug error (internal/data/store.go:8-11). `Insert` returns the database's error unclassified (internal/data/articles.go:94-96), and the handler answers 500 (cmd/api/articles.go:43-46). `DuplicateSlug` stands for the unique-constraint failure of the assumed schema.
- `strings.ToLower`: case mapping is restricted to the ASCII letters A–Z. Go also maps some non-ASCII letters to ASCII ones, for example U+0130 'İ' to 'i' and U+212A (Kelvin sign) to 'k'. Both then survive the `[^a-z0-9\-]` filter, so "İstanbul" gives `istanbul` in Go but `stanbul` in the model.
- Slugs.SlugBaseEmptyIff: the slug for a title without letters or digits is `-` plus the suffix; this follows the code, and the model does not treat it as an error.
- Timestamps (`created_at`, `updated_at`, `NOW()`): they are not stored, and `Update` does not return `updated_at`.
- The author `Profile` and the `JOIN users`: an article's author is kept as `authorId` only. The model assumes, as the foreign key guarantees, that the author exists, so the join cannot drop a row.
- The article list query, `GetIDBySlug`, tags registry, comments, users, JWT and HTTP handlers: they are outside the modelled core.
- Version column and edit-conflict error on `Update`: the code has neither, so neither is modelled.
- Store.ArticleStore.Insert: an id value spent by a failed insert (a sequence gap) is not modelled; a failed insert leaves `nextId` unchanged.
- Validation.IsWhitespace: white space is the ASCII set (tab, line feed, vertical tab, form feed, carriage return, space), not Unicode white space.
- The `validator` package: it is not part of this model; `Check`, `NotEmptyOrWhitespace` and `Unique` are given the meanings stated above.
