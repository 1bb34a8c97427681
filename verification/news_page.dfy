/** The news list and article pages (src/pages/News.tsx): the list
    filter, excerpts, reading time, category badges, the article lookup
    with its related articles, and the paragraph split. */
module NewsPage {
  import opened Wrappers
  import opened Text
  import opened Seqs
  import opened Content

  /** The search box: the lower-cased term occurs in the lower-cased title or content. */
  predicate ArticleMatches(a: Article, term: string) {
    Contains(Lower(a.title), Lower(term)) || Contains(Lower(a.content), Lower(term))
  }

  /** The category test as written: it reads only the selection, which is
      '' for the "全部" option and the category's name for every other. */
  predicate CategoryTestAsWritten(selection: string) {
    selection == "" || selection == "全部"
  }

  /** `filteredNews` as written. */
  function FilterNewsAsWritten(news: seq<Article>, term: string, selection: string): (r: seq<Article>)
    ensures forall a :: a in r <==> a in news && ArticleMatches(a, term) && CategoryTestAsWritten(selection)
  {
    Filter((a: Article) => ArticleMatches(a, term) && CategoryTestAsWritten(selection), news)
  }

  /** Choosing any named category empties the list, whatever the articles
      and the term: the test that was meant to be switched off rejects them all. */
  lemma NamedCategoryHidesEverything(news: seq<Article>, term: string, selection: string)
    requires !CategoryTestAsWritten(selection)
    ensures FilterNewsAsWritten(news, term, selection) == []
  {
    FilterNone((a: Article) => ArticleMatches(a, term) && CategoryTestAsWritten(selection), news);
  }

  /** An instance: an article the empty search finds disappears when the
      category "产品发布" is chosen. */
  lemma NamedCategoryExample()
    ensures var a := Article("n1", "新品", "内容", None);
      && FilterNews([a], "", "") == [a]
      && FilterNewsAsWritten([a], "", "产品发布") == []
  {
    var a := Article("n1", "新品", "内容", None);
    ContainsEmpty(Lower(a.title));
  }

  /** `filteredNews` with the category test switched off, as the comment
      beside it says it is: the selection plays no part. */
  function FilterNews(news: seq<Article>, term: string, selection: string): (r: seq<Article>)
    ensures forall a :: a in r <==> a in news && ArticleMatches(a, term)
  {
    Filter((a: Article) => ArticleMatches(a, term), news)
  }

  /** The list does not depend on the selected category, keeps the loaded
      order, lists everything for the empty term, and agrees with the code
      as written whenever "全部" is selected. */
  lemma FilterNewsFacts(news: seq<Article>, term: string, s1: string, s2: string)
    ensures FilterNews(news, term, s1) == FilterNews(news, term, s2)
    ensures IsSubsequence(FilterNews(news, term, s1), news)
    ensures FilterNews(news, "", s1) == news
    ensures CategoryTestAsWritten(s1) ==> FilterNewsAsWritten(news, term, s1) == FilterNews(news, term, s1)
  {
    FilterIsSubsequence((a: Article) => ArticleMatches(a, term), news);
    forall a | a in news
      ensures ArticleMatches(a, "")
    {
      ContainsEmpty(Lower(a.title));
    }
    FilterAll((a: Article) => ArticleMatches(a, ""), news);
    if CategoryTestAsWritten(s1) {
      FilterAgree((a: Article) => ArticleMatches(a, term) && CategoryTestAsWritten(s1),
        (a: Article) => ArticleMatches(a, term), news);
    }
  }

  /** The excerpt length of the list page. */
  const ExcerptLength := 150

  /** `getExcerpt(content)`: the content itself when it has at most 150
      code units, otherwise its first 150 units followed by "...". */
  function Excerpt(content: string): (r: string)
    ensures JsLength(r) <= ExcerptLength + 3
    ensures JsLength(content) <= ExcerptLength ==> r == content
    ensures JsLength(content) > ExcerptLength ==>
      && |r| >= 3 && JsLength(r) == ExcerptLength + 3 && r[|r| - 3..] == "..."
      && CutOf(content, r[..|r| - 3])
  {
    if JsLength(content) <= ExcerptLength then content
    else
      var cut := JsPrefix(content, ExcerptLength);
      EllipsisUnits(cut);
      assert (cut + "...")[..|cut|] == cut;
      cut + "..."
  }

  /** Taking the excerpt of an excerpt changes nothing: a long text's
      excerpt is cut at exactly 150 units, so cutting it again stops at
      the same place. */
  lemma ExcerptIdempotent(content: string)
    ensures Excerpt(Excerpt(content)) == Excerpt(content)
  {
    if JsLength(content) > ExcerptLength {
      var cut := JsPrefix(content, ExcerptLength);
      EllipsisUnits(cut);
      JsPrefixOfPrefix(cut, "...");
    }
  }

  /** `Math.ceil(content.length / 500)`: minutes of reading at 500 code units a minute. */
  function ReadingMinutes(content: string): (m: nat)
    ensures m * 500 >= JsLength(content)
    ensures m == 0 || (m - 1) * 500 < JsLength(content)
  {
    (JsLength(content) + 499) / 500
  }

  /** The reading time is the ceiling of length over 500: zero exactly for
      empty content, never smaller for longer content, and the least
      number of minutes that covers the length. */
  lemma ReadingMinutesFacts(c1: string, c2: string)
    ensures ReadingMinutes(c1) == 0 <==> c1 == []
    ensures JsLength(c1) <= JsLength(c2) ==> ReadingMinutes(c1) <= ReadingMinutes(c2)
    ensures forall m: nat :: m * 500 >= JsLength(c1) ==> ReadingMinutes(c1) <= m
  {
    JsLengthBounds(c1);
  }

  /** The badge colour of a category that is not one of the four. */
  const DefaultBadge := "bg-gray-100 text-gray-700"

  /** The category badge classes. */
  const BadgeColors: map<string, string> := map[
    "产品发布" := "bg-blue-100 text-blue-700",
    "行业动态" := "bg-green-100 text-green-700",
    "技术分享" := "bg-purple-100 text-purple-700",
    "公司新闻" := "bg-orange-100 text-orange-700"
  ]

  /** `getCategoryColor`: the table's entry, or the grey default. */
  function CategoryColor(category: string): string {
    if category in BadgeColors then BadgeColors[category] else DefaultBadge
  }

  /** The four named categories have four different colours, none of them
      the default; every other string gets the default. */
  lemma CategoryColorFacts(c1: string, c2: string)
    ensures CategoryColor(c1) != DefaultBadge <==> c1 in {"产品发布", "行业动态", "技术分享", "公司新闻"}
    ensures c1 in BadgeColors && c2 in BadgeColors ==> (CategoryColor(c1) == CategoryColor(c2) <==> c1 == c2)
  {
  }

  /** `allNews.find(news => news.documentId === id)`: the first article with that id. */
  function FindArticle(news: seq<Article>, id: string): (r: Option<Article>)
    ensures r.None? <==> forall a :: a in news ==> a.documentId != id
    ensures r.Some? ==> r.value in news && r.value.documentId == id
    ensures r.Some? ==> exists k :: 0 <= k < |news| && news[k] == r.value && forall j :: 0 <= j < k ==> news[j].documentId != id
  {
    if news == [] then None
    else if news[0].documentId == id then Some(news[0])
    else
      var rest := FindArticle(news[1..], id);
      if rest.Some? then
        var k :| 0 <= k < |news[1..]| && news[1..][k] == rest.value && forall j :: 0 <= j < k ==> news[1..][j].documentId != id;
        assert news[k + 1] == rest.value;
        rest
      else rest
  }

  /** How many related articles the article page shows. */
  const RelatedCount := 3

  /** The test `article.documentId !== id` that picks the other articles. */
  function OtherThan(id: string): Article -> bool {
    (a: Article) => a.documentId != id
  }

  /** The related articles: the first three others, in load order, or all
      of them when there are fewer. */
  function Related(news: seq<Article>, id: string): (r: seq<Article>)
    ensures |r| <= RelatedCount
    ensures forall a :: a in r ==> a in news && a.documentId != id
    ensures |r| < RelatedCount ==> forall a :: a in news && a.documentId != id ==> a in r
    ensures var others := Filter(OtherThan(id), news);
      |r| == (if |others| <= RelatedCount then |others| else RelatedCount) && r == others[..|r|]
  {
    var others := Filter(OtherThan(id), news);
    var r := Take(others, RelatedCount);
    assert forall a :: a in r ==> a in others by {
      forall a | a in r
        ensures a in others
      {
        var i :| 0 <= i < |r| && r[i] == a;
        assert others[i] == a;
      }
    }
    assert |r| < RelatedCount ==> r == others;
    assert r == others[..|r|];
    r
  }

  /** The related articles keep the order they were loaded in. */
  lemma RelatedKeepsOrder(news: seq<Article>, id: string)
    ensures IsSubsequence(Related(news, id), news)
  {
    TakeOfFilterIsSubsequence(OtherThan(id), news, RelatedCount);
  }

  /** The article page's data: nothing for an empty id or an unknown one;
      otherwise the article and its related articles. */
  function OpenArticle(news: seq<Article>, id: string): (r: Option<(Article, seq<Article>)>)
    ensures r.Some? <==> id != "" && exists a :: a in news && a.documentId == id
    ensures r.Some? ==> r.value.0.documentId == id && r.value.0 !in r.value.1
  {
    if id == "" then None
    else
      match FindArticle(news, id)
      case None => None
      case Some(a) => Some((a, Related(news, id)))
  }

  /** The article body's paragraphs: the content split at each '\n', one
      more paragraph than there are line breaks. */
  function Paragraphs(content: string): (r: seq<string>)
    ensures |r| == CountChar(content, '\n') + 1
    ensures forall k :: 0 <= k < |r| ==> '\n' !in r[k]
  {
    Split(content, '\n')
  }

  /** The paragraphs joined back with line breaks give the content. */
  lemma ParagraphsRejoin(content: string)
    ensures Join(Paragraphs(content), '\n') == content
  {
    JoinSplit(content, '\n');
  }
}
