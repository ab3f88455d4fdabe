/**
  `ValidateArticle`: four checks on an article, each adding its message to the
  validator's error list when it fails. The `validator` package itself is not
  part of this model; `Check`, `NotEmptyOrWhitespace` and `Unique` are given
  the meaning their call sites and the tests' expected error lists show.
 */
module Validation {
  import opened Articles

  const TitleMessage: string := "Title must not be empty or whitespace only"
  const DescriptionMessage: string := "Description must not be empty or whitespace only"
  const BodyMessage: string := "Body must not be empty or whitespace only"
  const TagListMessage: string := "TagList must not contain duplicate tags"

  /** ASCII white space: tab, line feed, vertical tab, form feed, carriage return and space. */
  predicate IsWhitespace(c: char) {
    c == ' ' || '\t' <= c <= '\r'
  }

  /** `validator.NotEmptyOrWhitespace`: some character is not white space. */
  predicate NotEmptyOrWhitespace(s: string) {
    exists i :: 0 <= i < |s| && !IsWhitespace(s[i])
  }

  /** `validator.Unique`: no value occurs twice. */
  predicate Unique(values: seq<string>) {
    forall i, j :: 0 <= i < j < |values| ==> values[i] != values[j]
  }

  /** The four checks of `ValidateArticle`, all passing. */
  predicate IsValidArticle(a: Article) {
    NotEmptyOrWhitespace(a.title) && NotEmptyOrWhitespace(a.description)
    && NotEmptyOrWhitespace(a.body) && Unique(a.tagList)
  }

  /** The position of a message's check in `ValidateArticle`; -1 for any other string. */
  function CheckIndex(message: string): int {
    if message == TitleMessage then 0
    else if message == DescriptionMessage then 1
    else if message == BodyMessage then 2
    else if message == TagListMessage then 3
    else -1
  }

  function MessageIf(ok: bool, message: string): seq<string> {
    if ok then [] else [message]
  }

  /** The messages `ValidateArticle` adds, in the order of its checks. */
  function ArticleErrors(a: Article): (messages: seq<string>)
    ensures TitleMessage in messages <==> !NotEmptyOrWhitespace(a.title)
    ensures DescriptionMessage in messages <==> !NotEmptyOrWhitespace(a.description)
    ensures BodyMessage in messages <==> !NotEmptyOrWhitespace(a.body)
    ensures TagListMessage in messages <==> !Unique(a.tagList)
    ensures messages == [] <==> IsValidArticle(a)
    ensures forall i :: 0 <= i < |messages| ==> CheckIndex(messages[i]) >= 0
    ensures forall i, j :: 0 <= i < j < |messages| ==> messages[i] != messages[j]
    ensures forall i, j :: 0 <= i < j < |messages| ==> CheckIndex(messages[i]) < CheckIndex(messages[j])
  {
    MessageIf(NotEmptyOrWhitespace(a.title), TitleMessage)
    + MessageIf(NotEmptyOrWhitespace(a.description), DescriptionMessage)
    + MessageIf(NotEmptyOrWhitespace(a.body), BodyMessage)
    + MessageIf(Unique(a.tagList), TagListMessage)
  }

  /** The validator's error list. */
  class Validator {
    var errors: seq<string>

    /** `validator.New()`. */
    constructor ()
      ensures errors == []
    {
      errors := [];
    }

    /**
      `v.Valid()`: no error was recorded. It mirrors the Go method of that name
      and is a query, not a class invariant.
     */
    predicate Valid(): (ok: bool)
      reads this
      ensures ok <==> forall m :: m !in errors
    {
      assert errors != [] ==> errors[0] in errors;
      errors == []
    }

    /** `v.Check(ok, message)`: records `message` when `ok` is false. */
    method Check(ok: bool, message: string)
      modifies this
      ensures errors == old(errors) + MessageIf(ok, message)
    {
      if !ok {
        errors := errors + [message];
      }
    }
  }

  /** `ValidateArticle(v, article)`. */
  method ValidateArticle(v: Validator, article: Article)
    modifies v
    ensures v.errors == old(v.errors) + ArticleErrors(article)
  {
    v.Check(NotEmptyOrWhitespace(article.title), TitleMessage);
    v.Check(NotEmptyOrWhitespace(article.description), DescriptionMessage);
    v.Check(NotEmptyOrWhitespace(article.body), BodyMessage);
    v.Check(Unique(article.tagList), TagListMessage);
  }

  /** A fresh validator is valid after `ValidateArticle` exactly when the four checks pass. */
  method ValidateNew(article: Article) returns (ok: bool, errors: seq<string>)
    ensures ok <==> IsValidArticle(article)
    ensures errors == ArticleErrors(article)
  {
    var v := new Validator();
    ValidateArticle(v, article);
    ok := v.Valid();
    errors := v.errors;
  }

  /** The creation test with an empty title gets exactly the title message. */
  lemma EmptyTitle(a: Article)
    requires a.title == "" && NotEmptyOrWhitespace(a.description) && NotEmptyOrWhitespace(a.body)
    requires Unique(a.tagList)
    ensures ArticleErrors(a) == [TitleMessage]
  {
  }

  /** The creation test's duplicate tags get exactly the tag-list message. */
  lemma DuplicateTags(a: Article)
    requires NotEmptyOrWhitespace(a.title) && NotEmptyOrWhitespace(a.description) && NotEmptyOrWhitespace(a.body)
    requires a.tagList == ["test", "test", "golang"]
    ensures ArticleErrors(a) == [TagListMessage]
  {
    assert a.tagList[0] == a.tagList[1];
  }
}
