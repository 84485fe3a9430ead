/** The relevance ranking of `src/app/api/blog/related/route.ts`. The two
    database reads become inputs: `table` is searched for the current
    article, and `candidates` stands for the rows the second query returned
    (the other articles, newest first, at most `limit * 2` of them). */
module RelatedRoute {
  import opened Wrappers
  import Strings
  import JsStrings
  import Sorting

  /** The columns of a blog article the ranking reads; `null` columns are
      `None`. */
  datatype Article = Article(id: string, isPublished: bool, categoryNl: Option<string>, tagsNl: Option<seq<string>>)

  /** An article paired with its relevance score. */
  datatype Scored = Scored(article: Article, score: int)

  datatype Response =
    | BadRequest  // status 400, "Article ID is required"
    | NotFound    // status 404, "Article not found"
    | Found(articles: seq<Article>)

  predicate IsPublished(a: Article) {
    a.isPublished
  }

  /** The current article's tags that the candidate also carries, with
      repetitions as they occur in the current article's tags. */
  function SharedTags(current: seq<string>, tags: seq<string>): seq<string> {
    Strings.Filter(current, t => t in tags)
  }

  /** The relevance of `a` to `current`: 10 for the same Dutch category
      (two `null` categories are equal under `===`), plus 5 per shared tag
      when both articles have a tag array. */
  function Score(current: Article, a: Article): int {
    (if a.categoryNl == current.categoryNl then 10 else 0)
    + (if current.tagsNl.Some? && a.tagsNl.Some? then |SharedTags(current.tagsNl.value, a.tagsNl.value)| * 5 else 0)
  }

  function ScoreOf(current: Article, a: Article): Scored {
    Scored(a, Score(current, a))
  }

  /** The sort key of `(a, b) => b.score - a.score`: ascending negated
      score is descending score. */
  function NegScore(s: Scored): int {
    -s.score
  }

  function ArticleOf(s: Scored): Article {
    s.article
  }

  /** The end index `slice(0, end)` uses on a sequence of length `len`:
      `NaN` counts as 0 and a negative end counts from the back. */
  function SliceEnd(len: nat, end: Option<int>): (r: nat)
    ensures r <= len
    ensures end.Some? && end.value >= 0 ==> r == if end.value < len then end.value else len
  {
    if end.None? then 0
    else if end.value < 0 then (if len + end.value < 0 then 0 else len + end.value)
    else if end.value < len then end.value
    else len
  }

  /** `map(article => ({ article, score }))`. */
  function Scores(current: Article, articles: seq<Article>): (r: seq<Scored>)
    ensures |r| == |articles|
    ensures forall k :: 0 <= k < |articles| ==> r[k] == ScoreOf(current, articles[k])
  {
    if articles == [] then [] else [ScoreOf(current, articles[0])] + Scores(current, articles[1..])
  }

  /** The scored published candidates, best first. */
  function SortedScores(current: Article, candidates: seq<Article>): seq<Scored> {
    Sorting.SortByKey(Scores(current, Strings.Filter(candidates, IsPublished)), NegScore)
  }

  /** The same, cut at the limit. */
  function RankedScores(current: Article, candidates: seq<Article>, limit: Option<int>): seq<Scored> {
    var sorted := SortedScores(current, candidates);
    sorted[..SliceEnd(|sorted|, limit)]
  }

  /** `filter(...).map(...).sort(...).slice(0, limit).map(item => item.article)`. */
  function Ranked(current: Article, candidates: seq<Article>, limit: Option<int>): seq<Article> {
    Strings.Map(RankedScores(current, candidates, limit), ArticleOf)
  }

  /** The first row of `table` with the given id, as `limit(1)` returns it. */
  function Lookup(table: seq<Article>, id: string): (r: Option<Article>)
    ensures r.Some? ==> r.value in table && r.value.id == id
    ensures r.None? ==> forall k :: 0 <= k < |table| ==> table[k].id != id
  {
    if table == [] then None else if table[0].id == id then Some(table[0]) else Lookup(table[1..], id)
  }

  /** `parseInt(searchParams.get('limit') || '3')`. */
  function Limit(limitParam: Option<string>): Option<int> {
    JsStrings.ParseInt(if limitParam.Some? && limitParam.value != "" then limitParam.value else "3")
  }

  /** `GET`: `articleId` and `limit` are the query parameters (`None` when
      absent). */
  function Get(articleId: Option<string>, limitParam: Option<string>, table: seq<Article>, candidates: seq<Article>): (r: Response)
    ensures r.BadRequest? <==> articleId.None? || articleId.value == ""
    ensures r.NotFound? <==> articleId.Some? && articleId.value != "" && Lookup(table, articleId.value).None?
    ensures r.Found? ==> articleId.Some? && Lookup(table, articleId.value).Some?
    ensures r.Found? ==> r.articles == Ranked(Lookup(table, articleId.value).value, candidates, Limit(limitParam))
  {
    var limit := Limit(limitParam);
    if articleId.None? || articleId.value == "" then BadRequest
    else
      var current := Lookup(table, articleId.value);
      if current.None? then NotFound
      else Found(Ranked(current.value, candidates, limit))
  }

  // ------------------------------------------------------------- properties

  /** The sorted scores are the articles' own scores, of published
      candidates. */
  lemma {:induction false} SortedScoresMeaning(current: Article, candidates: seq<Article>)
    ensures var sorted := SortedScores(current, candidates);
      forall k :: 0 <= k < |sorted| ==>
        sorted[k] == ScoreOf(current, sorted[k].article) && sorted[k].article in candidates && sorted[k].article.isPublished
  {
    var published := Strings.Filter(candidates, IsPublished);
    var scored := Scores(current, published);
    var sorted := SortedScores(current, candidates);
    forall k | 0 <= k < |sorted|
      ensures sorted[k] == ScoreOf(current, sorted[k].article) && sorted[k].article in candidates && sorted[k].article.isPublished
    {
      assert sorted[k] in multiset(scored);
      var m :| 0 <= m < |scored| && scored[m] == sorted[k];
    }
  }

  /** The same for the ranking. */
  lemma {:induction false} RankedScoresMeaning(current: Article, candidates: seq<Article>, limit: Option<int>)
    ensures var rs := RankedScores(current, candidates, limit);
      forall k :: 0 <= k < |rs| ==>
        rs[k].score == Score(current, rs[k].article) && rs[k].article in candidates && rs[k].article.isPublished
  {
    SortedScoresMeaning(current, candidates);
  }

  /** Only published candidates are returned. */
  lemma {:induction false} RankedPublished(current: Article, candidates: seq<Article>, limit: Option<int>)
    ensures forall a :: a in Ranked(current, candidates, limit) ==> a in candidates && a.isPublished
  {
    RankedScoresMeaning(current, candidates, limit);
  }

  /** The result is in non-increasing score order. */
  lemma {:induction false} RankedOrder(current: Article, candidates: seq<Article>, limit: Option<int>)
    ensures var r := Ranked(current, candidates, limit);
      forall i, j :: 0 <= i < j < |r| ==> Score(current, r[i]) >= Score(current, r[j])
  {
    RankedScoresMeaning(current, candidates, limit);
    var rs := RankedScores(current, candidates, limit);
    forall i, j | 0 <= i < j < |rs| ensures rs[i].score >= rs[j].score {
      assert NegScore(rs[i]) <= NegScore(rs[j]);
    }
  }

  /** A non-negative limit bounds the number of results; a missing or
      non-numeric one (`NaN`) returns nothing; a negative one drops that
      many from the back. */
  lemma {:induction false} RankedLength(current: Article, candidates: seq<Article>, limit: Option<int>)
    ensures var n := |Strings.Filter(candidates, IsPublished)|;
      var r := Ranked(current, candidates, limit);
      (limit.Some? && limit.value >= 0 ==> |r| == if limit.value < n then limit.value else n)
      && (limit.None? ==> r == [])
      && (limit.Some? && limit.value < 0 ==> |r| == if n + limit.value < 0 then 0 else n + limit.value)
  {
  }

  /** The results are the best: a published candidate left out scores no
      higher than any returned article. */
  lemma {:induction false} RankedBest(current: Article, candidates: seq<Article>, limit: Option<int>, c: Article)
    requires c in candidates && c.isPublished
    requires c !in Ranked(current, candidates, limit)
    ensures forall a :: a in Ranked(current, candidates, limit) ==> Score(current, a) >= Score(current, c)
  {
    var sorted := SortedScores(current, candidates);
    var end := SliceEnd(|sorted|, limit);
    var r := Ranked(current, candidates, limit);
    var j := SortedPosition(current, candidates, c);
    PrefixArticle(sorted, end, j);
    assert j >= end;
    SortedScoresMeaning(current, candidates);
    forall a | a in r ensures Score(current, a) >= Score(current, c) {
      var i :| 0 <= i < |r| && r[i] == a;
      assert r[i] == sorted[i].article;
      assert NegScore(sorted[i]) <= NegScore(sorted[j]);
    }
  }

  /** The article at a position before the cut is among the results. */
  lemma {:induction false} PrefixArticle(sorted: seq<Scored>, end: nat, j: nat)
    requires end <= |sorted| && j < |sorted|
    ensures j < end ==> sorted[j].article in Strings.Map(sorted[..end], ArticleOf)
  {
    if j < end {
      assert Strings.Map(sorted[..end], ArticleOf)[j] == sorted[j].article;
    }
  }

  /** Where a published candidate lands in the sorted scores. */
  lemma {:induction false} SortedPosition(current: Article, candidates: seq<Article>, c: Article) returns (j: nat)
    requires c in candidates && c.isPublished
    ensures j < |SortedScores(current, candidates)| && SortedScores(current, candidates)[j] == ScoreOf(current, c)
  {
    var published := Strings.Filter(candidates, IsPublished);
    var scored := Scores(current, published);
    var sorted := SortedScores(current, candidates);
    var pc :| 0 <= pc < |published| && published[pc] == c;
    assert scored[pc] == ScoreOf(current, c);
    assert ScoreOf(current, c) in multiset(sorted);
    j :| 0 <= j < |sorted| && sorted[j] == ScoreOf(current, c);
  }

  /** Scores are multiples of 5 between 0 and 10 plus 5 per current tag. */
  lemma {:induction false} ScoreRange(current: Article, a: Article)
    ensures Score(current, a) % 5 == 0
    ensures 0 <= Score(current, a) <= 10 + (if current.tagsNl.Some? then 5 * |current.tagsNl.value| else 0)
  {
  }

  /** A candidate whose tag array holds every tag of another one's, with
      the same category verdict, scores at least as high. */
  lemma {:induction false} ScoreMonotone(current: Article, a: Article, b: Article)
    requires (a.categoryNl == current.categoryNl) == (b.categoryNl == current.categoryNl)
    requires a.tagsNl.Some? ==> b.tagsNl.Some? && forall t :: t in a.tagsNl.value ==> t in b.tagsNl.value
    ensures Score(current, a) <= Score(current, b)
  {
    if current.tagsNl.Some? && a.tagsNl.Some? {
      FilterMonotone(current.tagsNl.value, a.tagsNl.value, b.tagsNl.value);
    }
  }

  lemma {:induction false} FilterMonotone(s: seq<string>, ta: seq<string>, tb: seq<string>)
    requires forall t :: t in ta ==> t in tb
    ensures |SharedTags(s, ta)| <= |SharedTags(s, tb)|
  {
    if s != [] {
      FilterMonotone(s[1..], ta, tb);
      Strings.FilterCons(s[0], s[1..], t => t in ta);
      Strings.FilterCons(s[0], s[1..], t => t in tb);
      assert s == [s[0]] + s[1..];
    }
  }

  /** All current tags shared and the same category: the highest score. */
  lemma {:induction false} ScoreAllShared(current: Article, a: Article)
    requires a.categoryNl == current.categoryNl
    requires current.tagsNl.Some? && a.tagsNl.Some?
    requires forall t :: t in current.tagsNl.value ==> t in a.tagsNl.value
    ensures Score(current, a) == 10 + 5 * |current.tagsNl.value|
  {
    FilterKeepsAll(current.tagsNl.value, a.tagsNl.value);
  }

  lemma {:induction false} FilterKeepsAll(s: seq<string>, tags: seq<string>)
    requires forall t :: t in s ==> t in tags
    ensures SharedTags(s, tags) == s
  {
    if s != [] {
      FilterKeepsAll(s[1..], tags);
      Strings.FilterCons(s[0], s[1..], t => t in tags);
      assert s == [s[0]] + s[1..];
    }
  }

  /** With no limit parameter (or an empty one) the limit is 3. */
  lemma {:induction false} DefaultLimit(limitParam: Option<string>)
    requires limitParam.None? || limitParam.value == ""
    ensures Limit(limitParam) == Some(3)
  {
    JsStrings.ParseIntNatToString(3);
    assert JsStrings.NatToString(3) == "3";
  }
}
