/** The product category page (src/pages/ProductCategories.tsx): the icon,
    description and colour of each category card, and the card's link into
    the product list. */
module ProductCategories {
  import opened Wrappers
  import opened Text
  import opened Content
  import ProductList

  /** The icons a category card can show. */
  datatype CardIcon = MonitorIcon | CpuIcon | SmartphoneIcon | SettingsIcon | PackageIcon

  /** `getCategoryIcon`: by the first keyword the name contains, in the
      order 一体机, 嵌入式, 迷你 or 紧凑, 定制; the package icon otherwise. */
  function CategoryIcon(name: string): CardIcon {
    if Contains(name, "一体机") then MonitorIcon
    else if Contains(name, "嵌入式") then CpuIcon
    else if Contains(name, "迷你") || Contains(name, "紧凑") then SmartphoneIcon
    else if Contains(name, "定制") then SettingsIcon
    else PackageIcon
  }

  /** `getCategoryDescription`: the same keyword tests in the same order. */
  function CategoryDescription(name: string): string {
    if Contains(name, "一体机") then "集成显示屏的工业计算机，操作便捷，适用于人机交互场景"
    else if Contains(name, "嵌入式") then "高性能处理器，丰富扩展接口，适用于复杂工业应用"
    else if Contains(name, "迷你") || Contains(name, "紧凑") then "小巧精致，功能强大，适用于空间受限的应用环境"
    else if Contains(name, "定制") then "根据客户需求定制化设计，提供专业的解决方案"
    else "专业工控设备，满足各种工业应用需求"
  }

  /** The five branches of the keyword tests. */
  datatype Branch = AllInOne | Embedded | Compact | Custom | General

  /** The branch a name falls in: the first keyword it contains. */
  function BranchOf(name: string): (b: Branch)
    ensures b == AllInOne <==> Contains(name, "一体机")
    ensures b == Embedded <==> !Contains(name, "一体机") && Contains(name, "嵌入式")
    ensures b == Compact <==>
      !Contains(name, "一体机") && !Contains(name, "嵌入式") && (Contains(name, "迷你") || Contains(name, "紧凑"))
    ensures b == Custom <==>
      !Contains(name, "一体机") && !Contains(name, "嵌入式") && !Contains(name, "迷你") && !Contains(name, "紧凑")
      && Contains(name, "定制")
  {
    if Contains(name, "一体机") then AllInOne
    else if Contains(name, "嵌入式") then Embedded
    else if Contains(name, "迷你") || Contains(name, "紧凑") then Compact
    else if Contains(name, "定制") then Custom
    else General
  }

  /** Icon and description come from the same branch: each is a different
      value per branch, so either one tells the other. */
  lemma IconAndDescriptionAgree(n1: string, n2: string)
    ensures CategoryIcon(n1) == CategoryIcon(n2) <==> BranchOf(n1) == BranchOf(n2)
    ensures CategoryDescription(n1) == CategoryDescription(n2) <==> BranchOf(n1) == BranchOf(n2)
  {
  }

  /** A category named both 一体机 and 定制 is shown as an all-in-one. */
  lemma KeywordPriorityExample()
    ensures CategoryIcon("定制一体机") == MonitorIcon
    ensures CategoryDescription("定制一体机") == CategoryDescription("一体机")
  {
    assert OccursAt("定制一体机", "一体机", 2);
    assert OccursAt("一体机", "一体机", 0);
  }

  /** The card header gradients, cycled through by position. */
  const Palette := [
    "from-blue-500 to-blue-600",
    "from-green-500 to-green-600",
    "from-purple-500 to-purple-600",
    "from-orange-500 to-orange-600",
    "from-red-500 to-red-600",
    "from-indigo-500 to-indigo-600"
  ]

  /** `getCategoryColor(index)`: the palette entry at `index` modulo six. */
  function CategoryColor(index: nat): (c: string)
    ensures c in Palette
  {
    Palette[index % |Palette|]
  }

  /** The colours repeat every six cards, and any six consecutive cards
      have six different colours. */
  lemma CategoryColorCycle(i: nat, j: nat)
    ensures CategoryColor(i + 6) == CategoryColor(i)
    ensures CategoryColor(i) == CategoryColor(j) <==> i % 6 == j % 6
  {
  }

  /** The product-list link of a category card. */
  function CategoryLink(documentId: string): string {
    "/products?category=" + documentId
  }

  /** The text after the first '?' of a link, if it has one. */
  function QueryOf(link: string): (q: Option<string>)
    ensures q.Some? ==> |q.value| < |link|
  {
    if link == [] then None
    else if link[0] == '?' then Some(link[1..])
    else QueryOf(link[1..])
  }

  /** The name part of a `name=value` pair: everything before the first '='. */
  function PairName(pair: string): string {
    if pair == [] || pair[0] == '=' then [] else [pair[0]] + PairName(pair[1..])
  }

  /** The value part of a `name=value` pair: everything after the first '=', or '' without one. */
  function PairValue(pair: string): string {
    if pair == [] then []
    else if pair[0] == '=' then pair[1..]
    else PairValue(pair[1..])
  }

  /** The value of the first pair with the given name. */
  function FirstValue(pairs: seq<string>, name: string): Option<string> {
    if pairs == [] then None
    else if PairName(pairs[0]) == name then Some(PairValue(pairs[0]))
    else FirstValue(pairs[1..], name)
  }

  /** `URLSearchParams.get(name)` on a query, for values without escapes. */
  function QueryGet(query: string, name: string): Option<string> {
    FirstValue(Split(query, '&'), name)
  }

  /** A pair whose name has no '=' splits back into its name and value. */
  lemma {:induction false} PairParts(name: string, value: string)
    requires '=' !in name
    ensures PairName(name + "=" + value) == name
    ensures PairValue(name + "=" + value) == value
  {
    if name != [] {
      assert (name + "=" + value)[1..] == name[1..] + "=" + value;
      PairParts(name[1..], value);
    } else {
      assert name + "=" + value == ['='] + value;
    }
  }

  /** Splitting a string without the separator gives the string alone. */
  lemma {:induction false} SplitWithoutSeparator(s: string, c: char)
    requires c !in s
    ensures Split(s, c) == [s]
  {
    if s != [] {
      SplitWithoutSeparator(s[1..], c);
      assert [s[0]] + s[1..] == s;
    }
  }

  /** A category link opens the product list with that category selected,
      for ids with none of the characters a query string treats specially. */
  lemma LinkSelectsCategory(documentId: string)
    requires documentId != ""
    requires '&' !in documentId && '#' !in documentId && '%' !in documentId && '+' !in documentId
    ensures QueryOf(CategoryLink(documentId)) == Some("category=" + documentId)
    ensures ProductList.InitialCategory(None, QueryGet("category=" + documentId, "category")) == documentId
  {
    var query := "category=" + documentId;
    assert CategoryLink(documentId) == "/products" + ['?'] + query;
    QueryAfterPath("/products", query);
    assert '&' !in query;
    SplitWithoutSeparator(query, '&');
    assert query == "category" + "=" + documentId;
    PairParts("category", documentId);
    assert QueryGet(query, "category") == Some(documentId);
  }

  /** A link made of a path without '?', a '?', and a query has that query. */
  lemma {:induction false} QueryAfterPath(path: string, query: string)
    requires '?' !in path
    ensures QueryOf(path + ['?'] + query) == Some(query)
  {
    if path == [] {
      assert path + ['?'] + query == ['?'] + query;
    } else {
      assert (path + ['?'] + query)[1..] == path[1..] + ['?'] + query;
      QueryAfterPath(path[1..], query);
    }
  }

  /** The products listed from a category card are the searched products
      of that category: a product is kept exactly when it matches the search
      and its category's document id or numeric id is the card's id. */
  lemma LinkFiltersToCategory(documentId: string, products: seq<Product>, term: string)
    requires documentId != ""
    requires '&' !in documentId && '#' !in documentId && '%' !in documentId && '+' !in documentId
    ensures var sel := ProductList.InitialCategory(None, QueryGet("category=" + documentId, "category"));
      forall p :: p in ProductList.FilterProducts(products, term, sel) <==>
        p in products && ProductList.MatchesSearch(p, term) && p.category.Some?
        && (p.category.value.documentId == documentId || IntToDecimal(p.category.value.id) == documentId)
  {
    LinkSelectsCategory(documentId);
  }
}
