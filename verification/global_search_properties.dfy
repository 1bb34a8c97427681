/** What the search overlay promises about its result list, proved of the
    model in global_search.dfy. */
module GlobalSearchProperties {
  import opened Wrappers
  import opened Text
  import opened Seqs
  import opened Content
  import opened GlobalSearch

  /** For a non-blank term: the list holds min(10, n) rows where n is the
      number of items scoring above zero; every product row comes from a
      loaded product that scored above zero and every news row from such an
      article; no news row precedes a product row; and when there are at
      most ten hits every one of them is listed. */
  lemma {:induction false} ResultsShape(term: string, products: seq<Product>, news: seq<Article>)
    requires !IsBlank(term)
    ensures var r := SearchResults(term, products, news);
      var hits := |Filter(ProductHitTest(Lower(term)), products)| + |Filter(NewsHitTest(Lower(term)), news)|;
      && |r| == (if hits <= MaxResults then hits else MaxResults)
      && (forall i :: 0 <= i < |r| && r[i].kind == ProductHit ==>
            exists p :: p in products && ProductScore(p, Lower(term)) > 0 && r[i] == ProductResultOf(p))
      && (forall i :: 0 <= i < |r| && r[i].kind == NewsHit ==>
            exists a :: a in news && NewsScore(a, Lower(term)) > 0 && r[i] == NewsResultOf(a))
      && (forall i, j :: 0 <= i < j < |r| && r[j].kind == ProductHit ==> r[i].kind == ProductHit)
      && (hits <= MaxResults ==>
            (forall p :: p in products && ProductScore(p, Lower(term)) > 0 ==> ProductResultOf(p) in r)
            && (forall a :: a in news && NewsScore(a, Lower(term)) > 0 ==> NewsResultOf(a) in r))
  {
    var t := Lower(term);
    TakeOfTwoGroups(ProductHitTest(t), ProductResultOf, products,
                    NewsHitTest(t), NewsResultOf, news,
                    (row: SearchResult) => row.kind == ProductHit, MaxResults);
  }

  /** Each group keeps load order: the product rows are the rows of a
      subsequence of the products, and likewise for the articles. */
  lemma GroupsKeepLoadOrder(term: string, products: seq<Product>, news: seq<Article>)
    ensures IsSubsequence(Filter(ProductHitTest(Lower(term)), products), products)
    ensures IsSubsequence(Filter(NewsHitTest(Lower(term)), news), news)
    ensures !IsBlank(term) ==>
      SearchResults(term, products, news) ==
        Take(Map(ProductResultOf, Filter(ProductHitTest(Lower(term)), products))
             + Map(NewsResultOf, Filter(NewsHitTest(Lower(term)), news)), MaxResults)
  {
    FilterIsSubsequence(ProductHitTest(Lower(term)), products);
    FilterIsSubsequence(NewsHitTest(Lower(term)), news);
  }

  /** Results depend on the term only through its lower-cased form. */
  lemma CaseInsensitive(t1: string, t2: string, products: seq<Product>, news: seq<Article>)
    requires Lower(t1) == Lower(t2)
    ensures SearchResults(t1, products, news) == SearchResults(t2, products, news)
  {
    LowerFacts(t1);
    LowerFacts(t2);
  }

  /** A product with only the given name, short description and operating system. */
  function SampleProduct(name: string, short: Option<string>, os: Option<string>): Product {
    Product("p1", "p-1", name, short, None, None, None, None, None, None, None, None, os, None, None, [], None)
  }

  /** " ipc" does not occur in "yx-ipc-3000", which has no space; "ipc" does. */
  lemma IpcScores()
    ensures ProductScore(SampleProduct("YX-IPC-3000", None, None), " ipc") == 0
    ensures ProductScore(SampleProduct("YX-IPC-3000", None, None), "ipc") == 10
  {
    var name := Lower("YX-IPC-3000");
    assert name == "yx-ipc-3000";
    assert " ipc"[0] == ' ';
    NotContainedByChar(name, " ipc", ' ');
    assert OccursAt(name, "ipc", 3);
  }

  /** The term is lower-cased but not trimmed: " ipc" finds nothing in a
      product named "YX-IPC-3000", while "ipc" finds it by its name. */
  lemma UntrimmedTermTakesPartInMatching()
    ensures var p := SampleProduct("YX-IPC-3000", None, None);
      && SearchResults(" ipc", [p], []) == []
      && SearchResults("ipc", [p], []) == [ProductResultOf(p)]
  {
    var p := SampleProduct("YX-IPC-3000", None, None);
    IpcScores();
    assert Lower(" ipc") == " ipc";
    assert Lower("ipc") == "ipc";
    assert !IsBlank(" ipc") by { assert !IsSpace(" ipc"[1]); }
    assert !IsBlank("ipc") by { assert !IsSpace("ipc"[0]); }
    assert Filter(ProductHitTest(" ipc"), [p]) == [];
    assert Filter(ProductHitTest("ipc"), [p]) == [p];
  }

  /** The scores of the two items of the ordering example below. */
  lemma ArmScores()
    ensures ProductScore(SampleProduct("PC", None, Some("ARM")), "arm") == 2
    ensures NewsScore(Article("n1", "arm", "arm", None), "arm") == 15
  {
    assert Lower("PC") == "pc";
    assert Lower("ARM") == "arm";
    assert Lower("arm") == "arm";
    assert OccursAt("arm", "arm", 0);
  }

  /** The product of the ordering example is listed, and so is the article. */
  lemma ArmRows()
    ensures ProductRows([SampleProduct("PC", None, Some("ARM"))], "arm") == [ProductResultOf(SampleProduct("PC", None, Some("ARM")))]
    ensures NewsRows([Article("n1", "arm", "arm", None)], "arm") == [NewsResultOf(Article("n1", "arm", "arm", None))]
  {
    var p := SampleProduct("PC", None, Some("ARM"));
    var a := Article("n1", "arm", "arm", None);
    ArmScores();
    OneProductRow(p, "arm");
    OneNewsRow(a, "arm");
  }

  /** A non-blank term matching one product and one article lists the product's row, then the article's. */
  lemma OneOfEach(term: string, p: Product, a: Article)
    requires !IsBlank(term)
    requires ProductRows([p], Lower(term)) == [ProductResultOf(p)]
    requires NewsRows([a], Lower(term)) == [NewsResultOf(a)]
    ensures SearchResults(term, [p], [a]) == [ProductResultOf(p), NewsResultOf(a)]
  {
    var pr, nr := ProductRows([p], Lower(term)), NewsRows([a], Lower(term));
    AllRowsShown(term, [p], [a]);
    SingletonsJoin(pr, nr, ProductResultOf(p), NewsResultOf(a));
  }

  /** Two one-element lists joined are the two-element list. */
  lemma SingletonsJoin<T>(xs: seq<T>, ys: seq<T>, x: T, y: T)
    requires xs == [x] && ys == [y]
    ensures xs + ys == [x, y]
  {
  }

  /** With at most ten matching rows, the list is all of them: the product
      rows, then the news rows. */
  lemma AllRowsShown(term: string, products: seq<Product>, news: seq<Article>)
    requires !IsBlank(term)
    requires |ProductRows(products, Lower(term))| + |NewsRows(news, Lower(term))| <= MaxResults
    ensures SearchResults(term, products, news) == ProductRows(products, Lower(term)) + NewsRows(news, Lower(term))
  {
  }

  /** The term of the ordering example is lower case and not blank. */
  lemma ArmTerm()
    ensures Lower("arm") == "arm" && !IsBlank("arm")
  {
    assert !IsSpace("arm"[0]);
  }

  /** The result list of the ordering example below. */
  lemma ArmSearch()
    ensures SearchResults("arm", [SampleProduct("PC", None, Some("ARM"))], [Article("n1", "arm", "arm", None)])
      == [ProductResultOf(SampleProduct("PC", None, Some("ARM"))), NewsResultOf(Article("n1", "arm", "arm", None))]
  {
    ArmRows();
    ArmTerm();
    OneOfEach("arm", SampleProduct("PC", None, Some("ARM")), Article("n1", "arm", "arm", None));
  }

  /** The rows are not ordered by score: a product matching only on its
      operating system (score 2) is listed before an article matching on
      title and body (score 15), because products always come first. */
  lemma ResultsAreNotSortedByScore()
    ensures var p := SampleProduct("PC", None, Some("ARM"));
      var a := Article("n1", "arm", "arm", None);
      && ProductScore(p, "arm") < NewsScore(a, "arm")
      && SearchResults("arm", [p], [a]) == [ProductResultOf(p), NewsResultOf(a)]
  {
    ArmScores();
    ArmSearch();
  }

  /** A product row shows the short description when it is non-empty and
      "暂无描述" otherwise, and links to "/products/" followed by the slug;
      a news row links to "/news/" followed by the article's id. */
  lemma RowFields(p: Product, a: Article)
    ensures Truthy(p.shortDescription) ==> ProductResultOf(p).description == p.shortDescription.value
    ensures !Truthy(p.shortDescription) ==> ProductResultOf(p).description == NoDescription
    ensures ProductResultOf(p).url == "/products/" + p.slug && ProductResultOf(p).title == p.name
    ensures NewsResultOf(a).url == "/news/" + a.documentId && NewsResultOf(a).title == a.title
    ensures JsLength(NewsResultOf(a).description) <= 103
  {
  }
}
