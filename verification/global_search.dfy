/** The site-wide search overlay (src/components/GlobalSearch.tsx): scores
    every loaded product and news article against the query by
    case-insensitive substring matches on weighted fields, keeps the items
    that score above zero, lists products before articles in the order
    they were loaded, and shows the first ten. */
module GlobalSearch {
  import opened Wrappers
  import opened Text
  import opened Seqs
  import opened Content

  datatype ResultKind = ProductHit | NewsHit

  /** One row of the result list. */
  datatype SearchResult = SearchResult(
    kind: ResultKind,
    id: string,
    title: string,
    description: string,
    url: string,
    imageUrl: Option<string>
  )

  /** At most this many results are shown. */
  const MaxResults: nat := 10
  /** Longest news snippet before the ellipsis is added. */
  const SnippetLength: nat := 100
  /** Description shown for a product without a short description ("no description yet"). */
  const NoDescription: string := "暂无描述"

  // ---------------------------------------------------------------- scoring

  /** An optional field matches when it is present and its lower-cased text contains the term. */
  predicate FieldMatches(field: Option<string>, term: string) {
    field.Some? && Contains(Lower(field.value), term)
  }

  function Weight(matched: bool, w: nat): nat {
    if matched then w else 0
  }

  /** The category name of a product, when it has a category. */
  function CategoryName(p: Product): Option<string> {
    if p.category.Some? then Some(p.category.value.name) else None
  }

  /** `getMatchScore`: the weights of the matching fields, added one test after another.
      `term` is the already lower-cased query. */
  function ProductScore(p: Product, term: string): (score: nat)
  {
    Weight(Contains(Lower(p.name), term), 10)
    + Weight(FieldMatches(p.shortDescription, term), 5)
    + Weight(FieldMatches(p.fullDescription, term), 3)
    + Weight(FieldMatches(p.features, term), 3)
    + Weight(FieldMatches(p.applications, term), 3)
    + Weight(FieldMatches(CategoryName(p), term), 5)
    + Weight(FieldMatches(p.cpuType, term), 2)
    + Weight(FieldMatches(p.memory, term), 2)
    + Weight(FieldMatches(p.operatingSystem, term), 2)
  }

  /** The product fields that take part in search, each with its weight, as a table. */
  function ProductFieldTable(p: Product): seq<(Option<string>, nat)> {
    [ (Some(p.name), 10), (p.shortDescription, 5), (p.fullDescription, 3),
      (p.features, 3), (p.applications, 3), (CategoryName(p), 5),
      (p.cpuType, 2), (p.memory, 2), (p.operatingSystem, 2) ]
  }

  /** Sum of the weights of the table rows whose field matches. */
  function TableScore(table: seq<(Option<string>, nat)>, term: string): nat {
    if table == [] then 0
    else Weight(FieldMatches(table[0].0, term), table[0].1) + TableScore(table[1..], term)
  }

  /** Sum of all weights of a table: the score of an item matching everywhere. */
  function TotalWeight(table: seq<(Option<string>, nat)>): nat {
    if table == [] then 0 else table[0].1 + TotalWeight(table[1..])
  }

  /** A table score is at most the sum of the weights, and is zero exactly when no field matches. */
  lemma {:induction false} TableScoreBounds(table: seq<(Option<string>, nat)>, term: string)
    requires forall k :: 0 <= k < |table| ==> table[k].1 > 0
    ensures TableScore(table, term) <= TotalWeight(table)
    ensures TableScore(table, term) == 0 <==> forall k :: 0 <= k < |table| ==> !FieldMatches(table[k].0, term)
  {
    if table != [] {
      TableScoreBounds(table[1..], term);
      assert forall k :: 1 <= k < |table| ==> table[k] == table[1..][k - 1];
    }
  }

  /** One row of a table sum, seen from the row's position. */
  lemma TableStep(table: seq<(Option<string>, nat)>, k: nat, term: string)
    requires k < |table|
    ensures TableScore(table[k..], term) == Weight(FieldMatches(table[k].0, term), table[k].1) + TableScore(table[k + 1..], term)
    ensures TotalWeight(table[k..]) == table[k].1 + TotalWeight(table[k + 1..])
  {
    assert table[k..][1..] == table[k + 1..];
  }

  /** A nine-row table sum, written out row by row. */
  lemma NineRowTable(t: seq<(Option<string>, nat)>, term: string)
    requires |t| == 9
    ensures TableScore(t, term) ==
      Weight(FieldMatches(t[0].0, term), t[0].1) + Weight(FieldMatches(t[1].0, term), t[1].1)
      + Weight(FieldMatches(t[2].0, term), t[2].1) + Weight(FieldMatches(t[3].0, term), t[3].1)
      + Weight(FieldMatches(t[4].0, term), t[4].1) + Weight(FieldMatches(t[5].0, term), t[5].1)
      + Weight(FieldMatches(t[6].0, term), t[6].1) + Weight(FieldMatches(t[7].0, term), t[7].1)
      + Weight(FieldMatches(t[8].0, term), t[8].1)
    ensures TotalWeight(t) == t[0].1 + t[1].1 + t[2].1 + t[3].1 + t[4].1 + t[5].1 + t[6].1 + t[7].1 + t[8].1
  {
    TableStep(t, 8, term);
    TableStep(t, 7, term);
    TableStep(t, 6, term);
    TableStep(t, 5, term);
    TableStep(t, 4, term);
    TableStep(t, 3, term);
    TableStep(t, 2, term);
    TableStep(t, 1, term);
    TableStep(t, 0, term);
    assert t[0..] == t;
  }

  /** The product score is the table sum of the independent field weights
      (name 10, short description 5, full description 3, features 3,
      applications 3, category name 5, CPU 2, memory 2, operating system 2):
      it lies in 0..35 and is positive exactly when some field matches. */
  lemma ProductScoreIsWeightedSum(p: Product, term: string)
    ensures ProductScore(p, term) == TableScore(ProductFieldTable(p), term)
    ensures 0 <= ProductScore(p, term) <= 35
    ensures ProductScore(p, term) > 0 <==>
      exists k :: 0 <= k < |ProductFieldTable(p)| && FieldMatches(ProductFieldTable(p)[k].0, term)
  {
    var t := ProductFieldTable(p);
    NineRowTable(t, term);
    TableScoreBounds(t, term);
  }

  /** `getNewsMatchScore`: 10 for a title match plus 5 for a content match. */
  function NewsScore(a: Article, term: string): (score: nat)
    ensures score == 0 || score == 5 || score == 10 || score == 15
    ensures score >= 10 <==> Contains(Lower(a.title), term)
    ensures score % 10 == 5 <==> Contains(Lower(a.content), term)
  {
    Weight(Contains(Lower(a.title), term), 10) + Weight(Contains(Lower(a.content), term), 5)
  }

  // ---------------------------------------------------------------- snippets

  /** No `<` is followed, anywhere later, by a `>`: nothing shaped like a tag is left. */
  predicate NoTagLeft(s: string) {
    forall i, j :: 0 <= i < j < |s| && s[i] == '<' ==> s[j] != '>'
  }

  /** No two neighbouring characters are both white space, and the only white space is ' '. */
  predicate SingleSpaced(s: string) {
    && (forall i :: 0 <= i < |s| ==> IsSpace(s[i]) ==> s[i] == ' ')
    && (forall i :: 0 <= i < |s| - 1 ==> !(IsSpace(s[i]) && IsSpace(s[i + 1])))
  }

  /** The position of the first `c` in `s`. */
  function FirstIndex(s: string, c: char): (k: nat)
    requires c in s
    ensures k < |s| && s[k] == c && c !in s[..k]
  {
    if s[0] == c then 0 else 1 + FirstIndex(s[1..], c)
  }

  /** `s.replace(/<[^>]*>/g, '')`: scanning left to right, a `<` that has a
      `>` somewhere after it is deleted together with everything up to and
      including the first such `>`; any other character is kept. What is
      kept and what is removed is stated by `StripTagsKeepsText`,
      `StripTagsDropsTag` and `StripTagsWithoutClose`. */
  function StripTags(s: string): (r: string)
    ensures forall c :: c in r ==> c in s
    ensures NoTagLeft(r)
    ensures '<' !in s ==> r == s
  {
    if s == [] then []
    else if s[0] == '<' && '>' in s[1..] then
      StripTags(s[FirstIndex(s, '>') + 1..])
    else
      var rest := StripTags(s[1..]);
      assert s[0] == '<' ==> '>' !in rest;
      [s[0]] + rest
  }

  /** `s.replace(/\s+/g, ' ')`: every maximal run of white space becomes one
      ' ' (`CollapseRun`), and every other character is kept (`CollapseKeepsWords`). */
  function CollapseSpaces(s: string): (r: string)
    ensures forall c :: c in r ==> c in s || c == ' '
    ensures |s| > 0 ==> |r| > 0 && r[0] == (if IsSpace(s[0]) then ' ' else s[0])
    ensures SingleSpaced(r)
    decreases |s|
  {
    if s == [] then []
    else if IsSpace(s[0]) then [' '] + CollapseSpaces(TrimStart(s))
    else [s[0]] + CollapseSpaces(s[1..])
  }

  /** Collapsing white space cannot put a `>` after a `<`: only spaces are introduced. */
  lemma {:induction false} CollapseKeepsNoTagLeft(s: string)
    requires NoTagLeft(s)
    ensures NoTagLeft(CollapseSpaces(s))
    decreases |s|
  {
    if s != [] {
      if IsSpace(s[0]) {
        var t := TrimStart(s);
        assert forall i :: 0 <= i < |t| ==> t[i] == s[|s| - |t| + i];
        CollapseKeepsNoTagLeft(t);
      } else {
        var rest := CollapseSpaces(s[1..]);
        assert forall j :: 0 <= j < |s[1..]| ==> s[1..][j] == s[j + 1];
        CollapseKeepsNoTagLeft(s[1..]);
        assert s[0] == '<' ==> '>' !in s[1..];
        assert s[0] == '<' ==> '>' !in rest;
      }
    }
  }

  /** Text without white space is left as it is. */
  lemma {:induction false} CollapseWithoutSpaces(s: string)
    requires forall i :: 0 <= i < |s| ==> !IsSpace(s[i])
    ensures CollapseSpaces(s) == s
  {
    if s != [] {
      CollapseWithoutSpaces(s[1..]);
    }
  }

  /** Text before the first `<` is kept as it is. */
  lemma {:induction false} StripTagsKeepsText(u: string, v: string)
    requires '<' !in u
    ensures StripTags(u + v) == u + StripTags(v)
    decreases |u|
  {
    if u != [] {
      var s := u + v;
      var w := u[1..];
      assert s[0] == u[0] && s[1..] == w + v;
      StripTagsHead(s);
      assert '<' !in w;
      StripTagsKeepsText(w, v);
      assert u == [u[0]] + w;
      assert [u[0]] + (w + StripTags(v)) == ([u[0]] + w) + StripTags(v);
    } else {
      assert u + v == v;
    }
  }

  /** A first character other than `<` is kept. */
  lemma {:induction false} StripTagsHead(s: string)
    requires s != [] && s[0] != '<'
    ensures StripTags(s) == [s[0]] + StripTags(s[1..])
  {
  }

  /** A `<` with a `>` after it is deleted up to and including the first `>`. */
  lemma {:induction false} StripTagsDropsTag(t: string, v: string)
    requires '>' !in t
    ensures StripTags("<" + t + ">" + v) == StripTags(v)
  {
    var s := "<" + t + ">" + v;
    assert s[1..] == t + ">" + v;
    assert s[1 + |t|] == '>';
    assert '>' in s[1..];
    var k := FirstIndex(s, '>');
    assert forall i :: 1 <= i <= |t| ==> s[i] == t[i - 1];
    assert k == 1 + |t|;
    assert s[k + 1..] == v;
  }

  /** With no `>` anywhere there is no tag to delete. */
  lemma {:induction false} StripTagsWithoutClose(s: string)
    requires '>' !in s
    ensures StripTags(s) == s
    decreases |s|
  {
    if s != [] {
      assert '>' !in s[1..];
      StripTagsWithoutClose(s[1..]);
    }
  }

  /** Text without white space is kept in front of the collapsed rest. */
  lemma {:induction false} CollapseKeepsWords(u: string, v: string)
    requires forall i :: 0 <= i < |u| ==> !IsSpace(u[i])
    ensures CollapseSpaces(u + v) == u + CollapseSpaces(v)
    decreases |u|
  {
    if u != [] {
      assert (u + v)[0] == u[0] && (u + v)[1..] == u[1..] + v;
      CollapseKeepsWords(u[1..], v);
    } else {
      assert u + v == v;
    }
  }

  /** A whole run of white space becomes one ' '. */
  lemma {:induction false} CollapseRun(w: string, v: string)
    requires w != [] && forall i :: 0 <= i < |w| ==> IsSpace(w[i])
    requires v == [] || !IsSpace(v[0])
    ensures CollapseSpaces(w + v) == " " + CollapseSpaces(v)
  {
    TrimStartOfRun(w, v);
    assert (w + v)[0] == w[0];
  }

  /** Leading white space followed by a non-space is exactly what `TrimStart` removes. */
  lemma {:induction false} TrimStartOfRun(w: string, v: string)
    requires forall i :: 0 <= i < |w| ==> IsSpace(w[i])
    requires v == [] || !IsSpace(v[0])
    ensures TrimStart(w + v) == v
    decreases |w|
  {
    if w != [] {
      assert (w + v)[0] == w[0] && (w + v)[1..] == w[1..] + v;
      TrimStartOfRun(w[1..], v);
    } else {
      assert w + v == v;
    }
  }

  /** Taking a slice keeps both properties of a cleaned text. */
  lemma SlicePreservesCleanText(s: string, lo: int, hi: int)
    requires 0 <= lo <= hi <= |s|
    ensures NoTagLeft(s) ==> NoTagLeft(s[lo..hi])
    ensures SingleSpaced(s) ==> SingleSpaced(s[lo..hi])
  {
    var t := s[lo..hi];
    assert forall i :: 0 <= i < |t| ==> t[i] == s[lo + i];
  }

  /** Trimming keeps both properties of a cleaned text. */
  lemma TrimPreservesCleanText(c: string)
    ensures NoTagLeft(c) ==> NoTagLeft(Trim(c))
    ensures SingleSpaced(c) ==> SingleSpaced(Trim(c))
  {
    var lo :| SpacePaddedSlice(c, Trim(c), lo);
    PaddedSliceKeepsCleanText(c, Trim(c), lo);
  }

  /** The part of a text left inside white-space padding is as clean as the text. */
  lemma PaddedSliceKeepsCleanText(c: string, r: string, lo: int)
    requires SpacePaddedSlice(c, r, lo)
    ensures NoTagLeft(c) ==> NoTagLeft(r)
    ensures SingleSpaced(c) ==> SingleSpaced(r)
  {
    SlicePreservesCleanText(c, lo, lo + |r|);
  }

  /** The markup-free, single-spaced, trimmed text of an article body; see
      `PlainTextDropsTag` and `PlainTextJoinsWords` for what it reads. */
  function PlainText(content: string): (r: string)
    ensures NoTagLeft(r) && SingleSpaced(r)
    ensures r == [] || (!IsSpace(r[0]) && !IsSpace(r[|r| - 1]))
  {
    var c := CollapseSpaces(StripTags(content));
    CollapseKeepsNoTagLeft(StripTags(content));
    TrimPreservesCleanText(c);
    Trim(c)
  }

  /** A tag in front of an article body leaves no trace in its plain text. */
  lemma {:induction false} PlainTextDropsTag(t: string, v: string)
    requires '>' !in t
    ensures PlainText("<" + t + ">" + v) == PlainText(v)
  {
    StripTagsDropsTag(t, v);
  }

  /** Two words separated by any run of white space read as the words
      joined by one ' '. */
  lemma {:induction false} PlainTextJoinsWords(a: string, w: string, b: string)
    requires a != [] && b != []
    requires forall i :: 0 <= i < |a| ==> !IsSpace(a[i]) && a[i] != '<'
    requires forall i :: 0 <= i < |b| ==> !IsSpace(b[i]) && b[i] != '<'
    requires w != [] && forall i :: 0 <= i < |w| ==> IsSpace(w[i])
    ensures PlainText(a + w + b) == a + " " + b
  {
    var s := a + w + b;
    WordsHaveNoTag(a, w, b);
    CollapseTwoWords(a, w, b);
    var r := a + " " + b;
    assert r[0] == a[0] && r[|r| - 1] == b[|b| - 1];
    TrimOfClean(r);
    PlainTextSteps(s, r);
  }

  /** The plain text of a body is the trimmed collapse of its stripped text. */
  lemma {:induction false} PlainTextSteps(content: string, c: string)
    requires CollapseSpaces(StripTags(content)) == c
    ensures PlainText(content) == Trim(c)
  {
  }

  /** Words without `<` around a run of white space contain no `<`. */
  lemma {:induction false} WordsHaveNoTag(a: string, w: string, b: string)
    requires forall i :: 0 <= i < |a| ==> a[i] != '<'
    requires forall i :: 0 <= i < |b| ==> b[i] != '<'
    requires forall i :: 0 <= i < |w| ==> IsSpace(w[i])
    ensures '<' !in a + w + b
  {
    var s := a + w + b;
    forall i | 0 <= i < |s|
      ensures s[i] != '<'
    {
      if i < |a| { assert s[i] == a[i]; }
      else if i < |a| + |w| { assert s[i] == w[i - |a|]; }
      else { assert s[i] == b[i - |a| - |w|]; }
    }
  }

  /** Two words around a run of white space collapse to the words and one ' '. */
  lemma {:induction false} CollapseTwoWords(a: string, w: string, b: string)
    requires forall i :: 0 <= i < |a| ==> !IsSpace(a[i])
    requires forall i :: 0 <= i < |b| ==> !IsSpace(b[i])
    requires w != [] && forall i :: 0 <= i < |w| ==> IsSpace(w[i])
    ensures CollapseSpaces(a + w + b) == a + " " + b
  {
    var wb := w + b;
    assert CollapseSpaces(wb) == " " + b by {
      assert b == [] || !IsSpace(b[0]);
      CollapseRun(w, b);
      CollapseWithoutSpaces(b);
    }
    assert CollapseSpaces(a + wb) == a + CollapseSpaces(wb) by {
      CollapseKeepsWords(a, wb);
    }
    assert a + w + b == a + wb;
    assert a + (" " + b) == a + " " + b;
  }

  /** Appending text without white space, `<` or `>` keeps both properties of a cleaned text. */
  lemma AppendKeepsCleanText(t: string, u: string)
    requires NoTagLeft(t) && SingleSpaced(t)
    requires forall i :: 0 <= i < |u| ==> !IsSpace(u[i]) && u[i] != '<' && u[i] != '>'
    ensures NoTagLeft(t + u) && SingleSpaced(t + u)
  {
    var r := t + u;
    assert forall i :: |t| <= i < |r| ==> r[i] == u[i - |t|];
    assert forall i :: 0 <= i < |t| ==> r[i] == t[i];
  }

  /** A cut of a cleaned text is clean: the stand-in for a split surrogate
      pair is neither white space nor a bracket. */
  lemma CutKeepsCleanText(s: string, r: string)
    requires NoTagLeft(s) && SingleSpaced(s) && CutOf(s, r)
    ensures NoTagLeft(r) && SingleSpaced(r)
  {
    if r == s[..|r|] {
      SlicePreservesCleanText(s, 0, |r|);
    } else {
      SlicePreservesCleanText(s, 0, |r| - 1);
      AppendKeepsCleanText(s[..|r| - 1], [LoneSurrogate]);
      assert r == s[..|r| - 1] + [LoneSurrogate];
    }
  }

  /** `getNewsDescription`: the plain text, cut to 100 code units plus
      "..." when it is longer. The snippet is at most 103 code units,
      single-spaced, and has no `<` followed later by `>`; a text of at
      most 100 units is its own snippet (see `LongSnippet` for the others). */
  function NewsDescription(content: string): (r: string)
    ensures JsLength(r) <= SnippetLength + 3
    ensures NoTagLeft(r) && SingleSpaced(r)
    ensures JsLength(PlainText(content)) <= SnippetLength ==> r == PlainText(content)
  {
    var plain := PlainText(content);
    if JsLength(plain) > SnippetLength then
      var cut := JsPrefix(plain, SnippetLength);
      EllipsisCut(plain, cut);
      cut + "..."
    else plain
  }

  /** The snippet of a plain text longer than 100 code units is exactly 103
      units: the start of the text, cut at 100 units, then "...". */
  lemma LongSnippet(content: string)
    ensures var plain := PlainText(content);
      var r := NewsDescription(content);
      JsLength(plain) > SnippetLength ==>
        && |r| >= 3 && JsLength(r) == SnippetLength + 3 && r[|r| - 3..] == "..."
        && CutOf(plain, r[..|r| - 3])
  {
    var plain := PlainText(content);
    if JsLength(plain) > SnippetLength {
      EllipsisCut(plain, JsPrefix(plain, SnippetLength));
    }
  }

  /** A clean cut followed by "..." is clean, three units longer, and gives
      the cut back when the dots are dropped. */
  lemma EllipsisCut(plain: string, cut: string)
    requires NoTagLeft(plain) && SingleSpaced(plain) && CutOf(plain, cut)
    ensures NoTagLeft(cut + "...") && SingleSpaced(cut + "...")
    ensures JsLength(cut + "...") == JsLength(cut) + 3
    ensures (cut + "...")[..|cut|] == cut && (cut + "...")[|cut|..] == "..."
  {
    CutKeepsCleanText(plain, cut);
    AppendKeepsCleanText(cut, "...");
    EllipsisUnits(cut);
  }

  /** An article body of at most 100 code units with no markup and no white
      space is shown unchanged as its snippet. */
  lemma PlainShortContentIsItsOwnSnippet(content: string)
    requires JsLength(content) <= SnippetLength
    requires '<' !in content
    requires forall i :: 0 <= i < |content| ==> !IsSpace(content[i])
    ensures NewsDescription(content) == content
  {
    PlainTextOfClean(content);
  }

  /** Text with no markup and no white space is its own plain text. */
  lemma PlainTextOfClean(content: string)
    requires '<' !in content
    requires forall i :: 0 <= i < |content| ==> !IsSpace(content[i])
    ensures PlainText(content) == content
  {
    CollapseWithoutSpaces(content);
    TrimOfClean(content);
  }

  // ---------------------------------------------------------------- results

  function ProductResultOf(p: Product): SearchResult {
    SearchResult(ProductHit, p.documentId, p.name, OrElse(p.shortDescription, NoDescription),
                 "/products/" + p.slug, p.productImageUrl)
  }

  function NewsResultOf(a: Article): SearchResult {
    SearchResult(NewsHit, a.documentId, a.title, NewsDescription(a.content),
                 "/news/" + a.documentId, a.firstImageUrl)
  }

  function ProductHitTest(term: string): Product -> bool {
    p => ProductScore(p, term) > 0
  }

  function NewsHitTest(term: string): Article -> bool {
    a => NewsScore(a, term) > 0
  }

  /** The product rows, in load order: one per product scoring above zero. */
  function ProductRows(products: seq<Product>, term: string): seq<SearchResult> {
    Map(ProductResultOf, Filter(ProductHitTest(term), products))
  }

  /** The news rows, in load order: one per article scoring above zero. */
  function NewsRows(news: seq<Article>, term: string): seq<SearchResult> {
    Map(NewsResultOf, Filter(NewsHitTest(term), news))
  }

  /** What the overlay shows for `term`: nothing for a blank term; otherwise
      the product rows then the news rows, cut at ten. */
  function SearchResults(term: string, products: seq<Product>, news: seq<Article>): seq<SearchResult> {
    if IsBlank(term) then []
    else Take(ProductRows(products, Lower(term)) + NewsRows(news, Lower(term)), MaxResults)
  }

  /** Scanning one more product appends its row exactly when it scores above zero. */
  lemma ProductRowsSnoc(products: seq<Product>, p: Product, term: string)
    ensures ProductRows(products + [p], term) ==
      ProductRows(products, term) + (if ProductScore(p, term) > 0 then [ProductResultOf(p)] else [])
  {
    MapFilterSnoc(ProductHitTest(term), ProductResultOf, products, p);
  }

  /** Scanning one more article appends its row exactly when it scores above zero. */
  lemma NewsRowsSnoc(news: seq<Article>, a: Article, term: string)
    ensures NewsRows(news + [a], term) ==
      NewsRows(news, term) + (if NewsScore(a, term) > 0 then [NewsResultOf(a)] else [])
  {
    MapFilterSnoc(NewsHitTest(term), NewsResultOf, news, a);
  }

  /** A single product is listed exactly when it scores above zero. */
  lemma OneProductRow(p: Product, term: string)
    ensures ProductRows([p], term) == if ProductScore(p, term) > 0 then [ProductResultOf(p)] else []
  {
    assert [] + [p] == [p];
    ProductRowsSnoc([], p, term);
  }

  /** A single article is listed exactly when it scores above zero. */
  lemma OneNewsRow(a: Article, term: string)
    ensures NewsRows([a], term) == if NewsScore(a, term) > 0 then [NewsResultOf(a)] else []
  {
    assert [] + [a] == [a];
    NewsRowsSnoc([], a, term);
  }

  /** The rows of the first `i + 1` products extend those of the first `i`. */
  lemma ProductRowsStep(products: seq<Product>, i: nat, term: string)
    requires i < |products|
    ensures ProductRows(products[..i + 1], term) ==
      ProductRows(products[..i], term) + (if ProductScore(products[i], term) > 0 then [ProductResultOf(products[i])] else [])
  {
    assert products[..i + 1] == products[..i] + [products[i]];
    ProductRowsSnoc(products[..i], products[i], term);
  }

  /** The rows of the first `j + 1` articles extend those of the first `j`. */
  lemma NewsRowsStep(news: seq<Article>, j: nat, term: string)
    requires j < |news|
    ensures NewsRows(news[..j + 1], term) ==
      NewsRows(news[..j], term) + (if NewsScore(news[j], term) > 0 then [NewsResultOf(news[j])] else [])
  {
    assert news[..j + 1] == news[..j] + [news[j]];
    NewsRowsSnoc(news[..j], news[j], term);
  }

  /** The `allProducts.forEach` pass: appends a row for every product scoring above zero. */
  method ScanProducts(products: seq<Product>, lowerTerm: string) returns (found: seq<SearchResult>)
    ensures found == ProductRows(products, lowerTerm)
  {
    found := [];
    var i := 0;
    while i < |products|
      invariant 0 <= i <= |products|
      invariant found == ProductRows(products[..i], lowerTerm)
    {
      var p := products[i];
      ProductRowsStep(products, i, lowerTerm);
      var score := ProductScore(p, lowerTerm);
      if score > 0 {
        found := found + [ProductResultOf(p)];
      }
      i := i + 1;
    }
    assert products[..i] == products;
  }

  /** The `allNews.forEach` pass: appends a row for every article scoring above zero. */
  method ScanNews(news: seq<Article>, lowerTerm: string) returns (found: seq<SearchResult>)
    ensures found == NewsRows(news, lowerTerm)
  {
    found := [];
    var j := 0;
    while j < |news|
      invariant 0 <= j <= |news|
      invariant found == NewsRows(news[..j], lowerTerm)
    {
      var a := news[j];
      NewsRowsStep(news, j, lowerTerm);
      var score := NewsScore(a, lowerTerm);
      if score > 0 {
        found := found + [NewsResultOf(a)];
      }
      j := j + 1;
    }
    assert news[..j] == news;
  }

  /** `performSearch`, as the source computes it: a blank term returns no
      rows before any scoring; otherwise one pass over the products and one
      over the articles, then `slice(0, 10)`. */
  method PerformSearch(term: string, products: seq<Product>, news: seq<Article>)
    returns (results: seq<SearchResult>)
    ensures results == SearchResults(term, products, news)
    ensures IsBlank(term) ==> results == []
    ensures |results| <= MaxResults
  {
    if IsBlank(term) {
      return [];
    }
    var lowerTerm := Lower(term);
    var productRows := ScanProducts(products, lowerTerm);
    var newsRows := ScanNews(news, lowerTerm);
    results := Take(productRows + newsRows, MaxResults);
  }
}
