/**
  The `Article` record of internal/data/articles.go and the slug assignment it
  carries. Timestamps and the author's profile are not modelled.
 */
module Articles {
  import opened Slugs

  /** The `Article` struct as handlers and the store exchange it. */
  datatype Article = Article(
    id: int,
    slug: string,
    title: string,
    description: string,
    body: string,
    tagList: seq<string>,
    favoritesCount: int,
    favorited: bool,
    authorId: int)

  /** The user a request runs on behalf of; `Anonymous` is the `data.AnonymousUser` sentinel. */
  datatype CurrentUser = Anonymous | SignedIn(id: int) {
    predicate IsAnonymous(): (anonymous: bool)
      ensures anonymous <==> !SignedIn?
    {
      Anonymous?
    }
  }

  /** `randomString`: fills a buffer of `length` bytes, one draw of `rand.Intn(36)` per byte. */
  method RandomString(length: nat, draws: seq<Draw>) returns (s: string)
    requires |draws| == length
    ensures s == Drawn(draws)
    ensures |s| == length
  {
    var b := new char[length];
    for i := 0 to length
      invariant forall k :: 0 <= k < i ==> b[k] == Charset[draws[k]]
    {
      b[i] := Charset[draws[i]];
    }
    s := b[..];
  }

  /** `Article.GenerateSlug`: replaces the slug with the normalised title plus a fresh suffix. */
  method GenerateSlug(a: Article, draws: seq<Draw>) returns (b: Article)
    requires |draws| == SuffixLength
    ensures b == a.(slug := Slug(a.title, Drawn(draws)))
    ensures IsSuffix(b.slug[|b.slug| - SuffixLength..])
  {
    var slug := ToLower(a.title);
    slug := ReplaceSpaces(slug);
    slug := KeepSlugChars(slug);
    slug := CollapseHyphens(slug);
    slug := Trim(slug);
    var suffix := RandomString(SuffixLength, draws);
    slug := slug + "-" + suffix;
    b := a.(slug := slug);
  }
}
