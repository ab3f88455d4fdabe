/**
  Slug normalisation of `Article.GenerateSlug`: a fixed pipeline of string
  rewrites applied to the title, followed by a random six-character suffix.
  Every stage is a total function on strings; the model restricts case mapping
  to ASCII letters.
 */
module Slugs {

  /** Number of random characters appended to every slug (`randomString(6)`). */
  const SuffixLength: nat := 6

  /** The alphabet `randomString` draws from. */
  const Charset: string := "abcdefghijklmnopqrstuvwxyz0123456789"

  /** One value returned by `rand.Intn(len(charset))`. */
  type Draw = d: nat | d < 36

  predicate IsLowerAlnum(c: char) {
    'a' <= c <= 'z' || '0' <= c <= '9'
  }

  /** Characters the regular expression `[^a-z0-9\-]` does not remove. */
  predicate IsSlugChar(c: char) {
    IsLowerAlnum(c) || c == '-'
  }

  predicate AllSlugChars(s: string) {
    forall i :: 0 <= i < |s| ==> IsSlugChar(s[i])
  }

  predicate NoDoubleHyphen(s: string) {
    forall i :: 0 <= i < |s| - 1 ==> !(s[i] == '-' && s[i + 1] == '-')
  }

  predicate NoEdgeHyphen(s: string) {
    s == [] || (s[0] != '-' && s[|s| - 1] != '-')
  }

  predicate AllHyphens(s: string) {
    forall k :: 0 <= k < |s| ==> s[k] == '-'
  }

  /** What a normalised title looks like: only `[a-z0-9-]`, no `--`, no hyphen at either end. */
  predicate IsSlugBase(s: string) {
    AllSlugChars(s) && NoDoubleHyphen(s) && NoEdgeHyphen(s)
  }

  /** A suffix `randomString(6)` can return. */
  predicate IsSuffix(s: string) {
    |s| == SuffixLength && forall i :: 0 <= i < |s| ==> IsLowerAlnum(s[i])
  }

  /** The lower-case letters and digits of `s`, in order. */
  function Alnums(s: string): string {
    if s == [] then [] else (if IsLowerAlnum(s[0]) then [s[0]] else []) + Alnums(s[1..])
  }

  // ---------------------------------------------------------------------------
  // The pipeline stages

  function LowerChar(c: char): char {
    if 'A' <= c <= 'Z' then (c as int + 32) as char else c
  }

  /** `strings.ToLower`, on ASCII letters. */
  function ToLower(s: string): (r: string)
    ensures |r| == |s|
    ensures forall i :: 0 <= i < |s| ==> r[i] == LowerChar(s[i])
  {
    if s == [] then [] else [LowerChar(s[0])] + ToLower(s[1..])
  }

  /** `strings.ReplaceAll(slug, " ", "-")`. */
  function ReplaceSpaces(s: string): (r: string)
    ensures |r| == |s|
    ensures forall i :: 0 <= i < |s| ==> r[i] == if s[i] == ' ' then '-' else s[i]
  {
    if s == [] then [] else [if s[0] == ' ' then '-' else s[0]] + ReplaceSpaces(s[1..])
  }

  /** Removal of every match of `[^a-z0-9\-]`. */
  function KeepSlugChars(s: string): (r: string)
    ensures |r| <= |s|
    ensures AllSlugChars(r)
    ensures forall c :: IsSlugChar(c) ==> multiset(r)[c] == multiset(s)[c]
  {
    if s == [] then []
    else
      assert s == [s[0]] + s[1..];
      (if IsSlugChar(s[0]) then [s[0]] else []) + KeepSlugChars(s[1..])
  }

  /** Replacement of every run matching `-+` by a single `-`. */
  function CollapseHyphens(s: string): (r: string)
    ensures |r| <= |s|
    ensures |s| > 0 ==> |r| > 0 && r[0] == s[0]
    ensures forall i :: 0 <= i < |r| ==> r[i] in s
    ensures '-' in r <==> '-' in s
    ensures NoDoubleHyphen(r)
    decreases |s|
  {
    if |s| <= 1 then s
    else if s[0] == '-' && s[1] == '-' then CollapseHyphens(s[1..])
    else [s[0]] + CollapseHyphens(s[1..])
  }

  /** Removal of every leading `-`. */
  function TrimLeft(s: string): (r: string)
    ensures |r| <= |s| && r == s[|s| - |r|..]
    ensures forall k :: 0 <= k < |s| - |r| ==> s[k] == '-'
    ensures r == [] || r[0] != '-'
  {
    if s != [] && s[0] == '-' then TrimLeft(s[1..]) else s
  }

  /** Removal of every trailing `-`. */
  function TrimRight(s: string): (r: string)
    ensures |r| <= |s| && r == s[..|r|]
    ensures forall k :: |r| <= k < |s| ==> s[k] == '-'
    ensures r == [] || r[|r| - 1] != '-'
  {
    if s != [] && s[|s| - 1] == '-' then TrimRight(s[..|s| - 1]) else s
  }

  /** `strings.Trim(slug, "-")`. */
  function Trim(s: string): (r: string)
    ensures NoEdgeHyphen(r)
    ensures exists i, j :: 0 <= i <= j <= |s| && r == s[i..j] && AllHyphens(s[..i]) && AllHyphens(s[j..])
  {
    var t := TrimLeft(s);
    var r := TrimRight(t);
    var i, j := |s| - |t|, |s| - |t| + |r|;
    assert r == s[i..j];
    assert AllHyphens(s[..i]) by {
      forall k | 0 <= k < i ensures s[..i][k] == '-' {
      }
    }
    assert AllHyphens(s[j..]) by {
      forall k | 0 <= k < |s| - j ensures s[j..][k] == '-' {
        assert s[j + k] == t[|r| + k];
      }
    }
    r
  }

  /** The normalised title: everything `GenerateSlug` does before the suffix. */
  function SlugBase(title: string): (base: string)
    ensures IsSlugBase(base)
  {
    var lowered := ToLower(title);
    var hyphenated := ReplaceSpaces(lowered);
    var kept := KeepSlugChars(hyphenated);
    var collapsed := CollapseHyphens(kept);
    var base := Trim(collapsed);
    SliceKeepsSlugBase(collapsed, base);
    base
  }

  /** The complete slug for a title and a random suffix. */
  function Slug(title: string, suffix: string): (slug: string)
    requires IsSuffix(suffix)
    ensures |slug| == |SlugBase(title)| + 1 + SuffixLength
    ensures slug[..|SlugBase(title)|] == SlugBase(title)
    ensures slug[|SlugBase(title)|] == '-'
    ensures slug[|SlugBase(title)| + 1..] == suffix
    ensures AllSlugChars(slug) && NoDoubleHyphen(slug) && slug[|slug| - 1] != '-'
    ensures SlugBase(title) != [] ==> slug[0] != '-'
  {
    var base := SlugBase(title);
    JoinSuffix(base, suffix);
    base + "-" + suffix
  }

  /** The suffix `randomString` builds from a sequence of draws. */
  function Drawn(draws: seq<Draw>): (s: string)
    ensures |s| == |draws|
    ensures forall i :: 0 <= i < |draws| ==> s[i] == Charset[draws[i]] && IsLowerAlnum(s[i])
  {
    CharsetIsLowerAlnum();
    seq(|draws|, i requires 0 <= i < |draws| => Charset[draws[i]])
  }

  // ---------------------------------------------------------------------------
  // Lemmas

  /** Every character of the alphabet is a lower-case letter or a digit, and every one of them is in it. */
  lemma CharsetIsLowerAlnum()
    ensures |Charset| == 36
    ensures forall d :: 0 <= d < 36 ==> IsLowerAlnum(Charset[d])
    ensures forall c :: IsLowerAlnum(c) ==> c in Charset
  {
    forall c | IsLowerAlnum(c) ensures c in Charset {
      if 'a' <= c <= 'z' {
        assert Charset[c as int - 'a' as int] == c;
      } else {
        assert Charset[26 + c as int - '0' as int] == c;
      }
    }
  }

  /** A slice of a slug base candidate keeps the character class and the no-`--` property. */
  lemma SliceKeepsSlugBase(s: string, r: string)
    requires AllSlugChars(s) && NoDoubleHyphen(s) && NoEdgeHyphen(r)
    requires exists i, j :: 0 <= i <= j <= |s| && r == s[i..j]
    ensures IsSlugBase(r)
  {
    var i, j :| 0 <= i <= j <= |s| && r == s[i..j];
    forall k | 0 <= k < |r| ensures IsSlugChar(r[k]) {
      assert r[k] == s[i + k];
    }
    forall k | 0 <= k < |r| - 1 ensures !(r[k] == '-' && r[k + 1] == '-') {
      assert r[k] == s[i + k] && r[k + 1] == s[i + k + 1];
    }
  }

  /** Joining a slug base and a suffix with `-` keeps the slug shape. */
  lemma JoinSuffix(base: string, suffix: string)
    requires IsSlugBase(base) && IsSuffix(suffix)
    ensures var slug := base + "-" + suffix;
            && slug[..|base|] == base && slug[|base|] == '-' && slug[|base| + 1..] == suffix
            && AllSlugChars(slug) && NoDoubleHyphen(slug) && slug[|slug| - 1] != '-'
            && (base != [] ==> slug[0] != '-')
  {
    var slug := base + "-" + suffix;
    assert slug[..|base|] == base;
    assert slug[|base| + 1..] == suffix;
    forall i | 0 <= i < |slug|
      ensures slug[i] == (if i < |base| then base[i] else if i == |base| then '-' else suffix[i - |base| - 1])
    {
    }
  }

  lemma {:induction false} AlnumsConcat(a: string, b: string)
    ensures Alnums(a + b) == Alnums(a) + Alnums(b)
  {
    if a != [] {
      assert (a + b)[0] == a[0];
      assert (a + b)[1..] == a[1..] + b;
      AlnumsConcat(a[1..], b);
    } else {
      assert a + b == b;
    }
  }

  lemma {:induction false} AlnumsReplaceSpaces(s: string)
    ensures Alnums(ReplaceSpaces(s)) == Alnums(s)
  {
    if s != [] {
      assert ReplaceSpaces(s)[1..] == ReplaceSpaces(s[1..]);
      AlnumsReplaceSpaces(s[1..]);
    }
  }

  lemma {:induction false} AlnumsKeepSlugChars(s: string)
    ensures Alnums(KeepSlugChars(s)) == Alnums(s)
  {
    if s != [] {
      var head := if IsSlugChar(s[0]) then [s[0]] else [];
      AlnumsConcat(head, KeepSlugChars(s[1..]));
      AlnumsKeepSlugChars(s[1..]);
    }
  }

  lemma {:induction false} AlnumsCollapseHyphens(s: string)
    ensures Alnums(CollapseHyphens(s)) == Alnums(s)
    decreases |s|
  {
    if |s| > 1 {
      AlnumsCollapseHyphens(s[1..]);
      if !(s[0] == '-' && s[1] == '-') {
        assert ([s[0]] + CollapseHyphens(s[1..]))[1..] == CollapseHyphens(s[1..]);
      }
    }
  }

  lemma {:induction false} AlnumsOfHyphens(s: string)
    requires forall k :: 0 <= k < |s| ==> s[k] == '-'
    ensures Alnums(s) == []
  {
    if s != [] {
      AlnumsOfHyphens(s[1..]);
    }
  }

  lemma AlnumsTrimLeft(s: string)
    ensures Alnums(TrimLeft(s)) == Alnums(s)
  {
    var t := TrimLeft(s);
    var cut := s[..|s| - |t|];
    assert s == cut + t;
    AlnumsOfHyphens(cut);
    AlnumsConcat(cut, t);
  }

  lemma AlnumsTrimRight(s: string)
    ensures Alnums(TrimRight(s)) == Alnums(s)
  {
    var r := TrimRight(s);
    var cut := s[|r|..];
    assert s == r + cut;
    AlnumsOfHyphens(cut);
    AlnumsConcat(r, cut);
  }

  lemma AlnumsTrim(s: string)
    ensures Alnums(Trim(s)) == Alnums(s)
  {
    AlnumsTrimLeft(s);
    AlnumsTrimRight(TrimLeft(s));
  }

  /** Normalisation keeps exactly the letters and digits of the lower-cased title, in order. */
  lemma SlugBaseContent(title: string)
    ensures Alnums(SlugBase(title)) == Alnums(ToLower(title))
  {
    var lowered := ToLower(title);
    var hyphenated := ReplaceSpaces(lowered);
    var kept := KeepSlugChars(hyphenated);
    var collapsed := CollapseHyphens(kept);
    AlnumsReplaceSpaces(lowered);
    AlnumsKeepSlugChars(hyphenated);
    AlnumsCollapseHyphens(kept);
    AlnumsTrim(collapsed);
  }

  /** The base is empty exactly when the title holds no ASCII letter or digit. */
  lemma SlugBaseEmptyIff(title: string)
    ensures SlugBase(title) == [] <==> Alnums(ToLower(title)) == []
  {
    var base := SlugBase(title);
    SlugBaseContent(title);
    if base != [] {
      assert IsLowerAlnum(base[0]);
      assert Alnums(base) == [base[0]] + Alnums(base[1..]);
    }
  }

  lemma {:induction false} KeepSlugCharsOfSlugChars(s: string)
    requires AllSlugChars(s)
    ensures KeepSlugChars(s) == s
  {
    if s != [] {
      KeepSlugCharsOfSlugChars(s[1..]);
    }
  }

  /** The filter works character by character, so what it keeps stays in order. */
  lemma {:induction false} KeepSlugCharsConcat(a: string, b: string)
    ensures KeepSlugChars(a + b) == KeepSlugChars(a) + KeepSlugChars(b)
  {
    if a == [] {
      assert a + b == b;
    } else {
      assert (a + b)[0] == a[0];
      assert (a + b)[1..] == a[1..] + b;
      KeepSlugCharsConcat(a[1..], b);
    }
  }

  lemma KeepSlugCharsOne(c: char)
    ensures KeepSlugChars([c]) == if IsSlugChar(c) then [c] else []
  {
    assert [c][1..] == [];
  }

  /** A character outside `[a-z0-9-]` between slug characters disappears, and its neighbours become adjacent. */
  lemma KeepSlugCharsDropsOne(a: string, c: char, b: string)
    requires AllSlugChars(a) && AllSlugChars(b) && !IsSlugChar(c)
    ensures KeepSlugChars(a + [c] + b) == a + b
  {
    assert KeepSlugChars(a + [c]) == a by {
      KeepSlugCharsConcat(a, [c]);
      KeepSlugCharsOne(c);
      KeepSlugCharsOfSlugChars(a);
      assert a + [] == a;
    }
    KeepSlugCharsConcat(a + [c], b);
    KeepSlugCharsOfSlugChars(b);
  }

  /**
    A title whose lower-cased, hyphenated form is a slug base with one foreign
    character inserted (an apostrophe, say) normalises to that slug base: the
    character is dropped and the hyphens around it stay.
   */
  lemma SlugBaseOfPunctuatedWords(title: string, a: string, c: char, b: string)
    requires ReplaceSpaces(ToLower(title)) == a + [c] + b
    requires !IsSlugChar(c) && IsSlugBase(a + b)
    ensures SlugBase(title) == a + b
  {
    assert AllSlugChars(a) by {
      forall k | 0 <= k < |a| ensures IsSlugChar(a[k]) {
        assert a[k] == (a + b)[k];
      }
    }
    assert AllSlugChars(b) by {
      forall k | 0 <= k < |b| ensures IsSlugChar(b[k]) {
        assert b[k] == (a + b)[|a| + k];
      }
    }
    KeepSlugCharsDropsOne(a, c, b);
    CollapseWithoutDoubleHyphen(a + b);
    TrimWithoutEdgeHyphen(a + b);
    SlugBaseSteps(title, a + [c] + b, a + b, a + b);
  }

  lemma {:induction false} CollapseWithoutDoubleHyphen(s: string)
    requires NoDoubleHyphen(s)
    ensures CollapseHyphens(s) == s
    decreases |s|
  {
    if |s| > 1 {
      CollapseWithoutDoubleHyphen(s[1..]);
    }
  }

  /** A normalised title normalises to itself, so normalisation is idempotent. */
  lemma SlugBaseOfSlugBase(base: string)
    requires IsSlugBase(base)
    ensures SlugBase(base) == base
  {
    forall k | 0 <= k < |base| ensures LowerChar(base[k]) == base[k] && base[k] != ' ' {
      assert IsSlugChar(base[k]);
    }
    LowerOf(base, base);
    HyphenatedOf(base, base);
    KeepSlugCharsOfSlugChars(base);
    CollapseWithoutDoubleHyphen(base);
    TrimWithoutEdgeHyphen(base);
    SlugBaseSteps(base, base, base, base);
  }

  lemma SlugBaseIdempotent(title: string)
    ensures SlugBase(SlugBase(title)) == SlugBase(title)
  {
    SlugBaseOfSlugBase(SlugBase(title));
  }

  /** A title whose lower-cased, hyphenated form is already a slug base normalises to that form. */
  lemma SlugBaseOfWords(title: string, base: string)
    requires ReplaceSpaces(ToLower(title)) == base && IsSlugBase(base)
    ensures SlugBase(title) == base
  {
    KeepSlugCharsOfSlugChars(base);
    CollapseWithoutDoubleHyphen(base);
  }

  /** Letters and digits only. */
  predicate IsWord(w: string) {
    forall k :: 0 <= k < |w| ==> IsLowerAlnum(w[k])
  }

  /** Spaces and hyphens only. */
  predicate IsSeparator(sep: string) {
    forall k :: 0 <= k < |sep| ==> sep[k] == ' ' || sep[k] == '-'
  }

  function Hyphens(n: nat): (h: string)
    ensures |h| == n && AllHyphens(h)
  {
    seq(n, k => '-')
  }

  lemma CollapseAfterLetter(c: char, rest: string)
    requires c != '-'
    ensures CollapseHyphens([c] + rest) == [c] + CollapseHyphens(rest)
  {
    var s := [c] + rest;
    if rest == [] {
      assert s == [c];
    } else {
      assert s[1..] == rest;
    }
  }

  lemma {:induction false} CollapseAfterWord(w: string, rest: string)
    requires IsWord(w)
    ensures CollapseHyphens(w + rest) == w + CollapseHyphens(rest)
    decreases |w|
  {
    if w == [] {
      assert w + rest == rest;
    } else {
      assert w + rest == [w[0]] + (w[1..] + rest);
      CollapseAfterLetter(w[0], w[1..] + rest);
      CollapseAfterWord(w[1..], rest);
      assert w == [w[0]] + w[1..];
    }
  }

  /** A run of hyphens followed by a non-hyphen collapses to one hyphen. */
  lemma {:induction false} CollapseHyphenRun(h: string, rest: string)
    requires h != [] && AllHyphens(h) && (rest == [] || rest[0] != '-')
    ensures CollapseHyphens(h + rest) == "-" + CollapseHyphens(rest)
    decreases |h|
  {
    if |h| == 1 {
      assert (h + rest)[1..] == rest;
    } else {
      assert (h + rest)[1..] == h[1..] + rest;
      CollapseHyphenRun(h[1..], rest);
    }
  }

  /** Lower-casing and hyphenating two words and a separator turns the separator into hyphens. */
  lemma HyphenateTwoWords(w1: string, sep: string, w2: string)
    requires IsWord(w1) && IsWord(w2) && IsSeparator(sep)
    ensures ReplaceSpaces(ToLower(w1 + sep + w2)) == w1 + Hyphens(|sep|) + w2
  {
    var title := w1 + sep + w2;
    var hyphenated := w1 + Hyphens(|sep|) + w2;
    forall k | 0 <= k < |title| ensures !('A' <= title[k] <= 'Z') {
      if k < |w1| {
        assert title[k] == w1[k];
      } else if k < |w1| + |sep| {
        assert title[k] == sep[k - |w1|];
      } else {
        assert title[k] == w2[k - |w1| - |sep|];
      }
    }
    LowerOf(title, title);
    forall k | 0 <= k < |title| ensures hyphenated[k] == if title[k] == ' ' then '-' else title[k] {
      if k < |w1| {
        assert title[k] == w1[k] && hyphenated[k] == w1[k];
      } else if k < |w1| + |sep| {
        assert title[k] == sep[k - |w1|] && hyphenated[k] == '-';
      } else {
        assert title[k] == w2[k - |w1| - |sep|] && hyphenated[k] == w2[k - |w1| - |sep|];
      }
    }
    HyphenatedOf(title, hyphenated);
  }

  lemma CollapseTwoWords(w1: string, h: string, w2: string)
    requires IsWord(w1) && IsWord(w2) && w2 != [] && h != [] && AllHyphens(h)
    ensures CollapseHyphens(w1 + h + w2) == w1 + "-" + w2
  {
    assert w1 + h + w2 == w1 + (h + w2);
    CollapseAfterWord(w1, h + w2);
    CollapseHyphenRun(h, w2);
    CollapseWithoutDoubleHyphen(w2);
  }

  /**
    Two words separated by any non-empty mix of spaces and hyphens normalise to
    the words joined by exactly one hyphen: the separator hyphens survive the
    filter, and the run collapses to one.
   */
  lemma SlugBaseOfTwoWords(w1: string, sep: string, w2: string)
    requires w1 != [] && w2 != [] && IsWord(w1) && IsWord(w2)
    requires sep != [] && IsSeparator(sep)
    ensures SlugBase(w1 + sep + w2) == w1 + "-" + w2
  {
    var hyphenated := w1 + Hyphens(|sep|) + w2;
    HyphenateTwoWords(w1, sep, w2);
    TwoWordsSlugChars(w1, |sep|, w2);
    KeepSlugCharsOfSlugChars(hyphenated);
    CollapseTwoWords(w1, Hyphens(|sep|), w2);
    JoinedWordsTrimmed(w1, w2);
    SlugBaseSteps(w1 + sep + w2, hyphenated, hyphenated, w1 + "-" + w2);
  }

  lemma TwoWordsSlugChars(w1: string, n: nat, w2: string)
    requires IsWord(w1) && IsWord(w2)
    ensures AllSlugChars(w1 + Hyphens(n) + w2)
  {
    SlugCharsConcat(w1, Hyphens(n));
    SlugCharsConcat(w1 + Hyphens(n), w2);
  }

  lemma JoinedWordsTrimmed(w1: string, w2: string)
    requires w1 != [] && w2 != [] && IsWord(w1) && IsWord(w2)
    ensures Trim(w1 + "-" + w2) == w1 + "-" + w2
  {
    var joined := w1 + "-" + w2;
    assert joined[0] == w1[0] && joined[|joined| - 1] == w2[|w2| - 1];
    TrimWithoutEdgeHyphen(joined);
  }

  lemma SlugCharsConcat(a: string, b: string)
    requires AllSlugChars(a) && AllSlugChars(b)
    ensures AllSlugChars(a + b)
  {
    forall k | 0 <= k < |a + b| ensures IsSlugChar((a + b)[k]) {
      if k >= |a| {
        assert (a + b)[k] == b[k - |a|];
      }
    }
  }

  /** `SlugBase` from the result of each stage. */
  lemma SlugBaseSteps(title: string, hyphenated: string, kept: string, collapsed: string)
    requires ReplaceSpaces(ToLower(title)) == hyphenated && KeepSlugChars(hyphenated) == kept
    requires CollapseHyphens(kept) == collapsed
    ensures SlugBase(title) == Trim(collapsed)
  {
  }

  lemma TrimWithoutEdgeHyphen(s: string)
    requires NoEdgeHyphen(s)
    ensures Trim(s) == s
  {
    assert TrimLeft(s) == s;
    assert TrimRight(s) == s;
  }

  // The test titles, one normalisation step per lemma (each is a small computation).
  lemma LowerOf(s: string, r: string)
    requires |s| == |r| && forall i :: 0 <= i < |s| ==> LowerChar(s[i]) == r[i]
    ensures ToLower(s) == r
  {
  }

  lemma HyphenatedOf(s: string, r: string)
    requires |s| == |r| && forall i :: 0 <= i < |s| ==> r[i] == if s[i] == ' ' then '-' else s[i]
    ensures ReplaceSpaces(s) == r
  {
  }

  lemma LowerTestArticle() ensures ToLower("Test Article") == "test article" { LowerOf("Test Article", "test article"); }
  lemma HyphenateTestArticle() ensures ReplaceSpaces("test article") == "test-article" { HyphenatedOf("test article", "test-article"); }
  lemma TestArticleIsBase() ensures IsSlugBase("test-article") {}
  lemma LowerUpdatedTitle() ensures ToLower("Updated Title") == "updated title" { LowerOf("Updated Title", "updated title"); }
  lemma HyphenateUpdatedTitle() ensures ReplaceSpaces("updated title") == "updated-title" { HyphenatedOf("updated title", "updated-title"); }
  lemma UpdatedTitleIsBase() ensures IsSlugBase("updated-title") {}

  lemma LowerAlice() ensures ToLower("Alice's Article") == "alice's article" { LowerOf("Alice's Article", "alice's article"); }
  lemma HyphenateAlice() ensures ReplaceSpaces("alice's article") == "alice's-article" { HyphenatedOf("alice's article", "alice's-article"); }
  lemma SplitAlice() ensures "alice's-article" == "alice" + ['\''] + "s-article" && "alices-article" == "alice" + "s-article" {}
  lemma KeepAlice() ensures KeepSlugChars("alice's-article") == "alices-article" {
    SplitAlice();
    KeepSlugCharsDropsOne("alice", '\'', "s-article");
  }
  lemma AliceIsBase() ensures IsSlugBase("alices-article") {}
  lemma LowerBob() ensures ToLower("Bob's Article") == "bob's article" { LowerOf("Bob's Article", "bob's article"); }
  lemma HyphenateBob() ensures ReplaceSpaces("bob's article") == "bob's-article" { HyphenatedOf("bob's article", "bob's-article"); }
  lemma SplitBob() ensures "bob's-article" == "bob" + ['\''] + "s-article" && "bobs-article" == "bob" + "s-article" {}
  lemma KeepBob() ensures KeepSlugChars("bob's-article") == "bobs-article" {
    SplitBob();
    KeepSlugCharsDropsOne("bob", '\'', "s-article");
  }
  lemma BobIsBase() ensures IsSlugBase("bobs-article") {}

  /** A title whose filtered form is already a slug base normalises to it. */
  lemma SlugBaseOfKept(title: string, hyphenated: string, base: string)
    requires ReplaceSpaces(ToLower(title)) == hyphenated && KeepSlugChars(hyphenated) == base && IsSlugBase(base)
    ensures SlugBase(title) == base
  {
    CollapseWithoutDoubleHyphen(base);
    TrimWithoutEdgeHyphen(base);
    SlugBaseSteps(title, hyphenated, base, base);
  }

  /** The apostrophe in the test title "Alice's Article" is dropped, and the hyphen between the words stays. */
  lemma AliceTitle()
    ensures SlugBase("Alice's Article") == "alices-article"
  {
    LowerAlice();
    HyphenateAlice();
    KeepAlice();
    AliceIsBase();
    SlugBaseOfKept("Alice's Article", "alice's-article", "alices-article");
  }

  /** The same for the test title "Bob's Article". */
  lemma BobTitle()
    ensures SlugBase("Bob's Article") == "bobs-article"
  {
    LowerBob();
    HyphenateBob();
    KeepBob();
    BobIsBase();
    SlugBaseOfKept("Bob's Article", "bob's-article", "bobs-article");
  }

  /** The slug prefix the creation test expects for "Test Article". */
  lemma CreatedTitle()
    ensures SlugBase("Test Article") == "test-article"
  {
    LowerTestArticle();
    HyphenateTestArticle();
    TestArticleIsBase();
    SlugBaseOfWords("Test Article", "test-article");
  }

  /** The slug prefix the update test expects for "Updated Title". */
  lemma UpdatedTitle()
    ensures SlugBase("Updated Title") == "updated-title"
  {
    LowerUpdatedTitle();
    HyphenateUpdatedTitle();
    UpdatedTitleIsBase();
    SlugBaseOfWords("Updated Title", "updated-title");
  }
}
