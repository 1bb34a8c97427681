/** The product list page (src/pages/ProductList.tsx): the selected
    category it starts from, the search and category filter, the card
    image and the card's short spec list. */
module ProductList {
  import opened Wrappers
  import opened Text
  import opened Seqs
  import opened Content

  /** The selection the page starts from: the route's category id, else the
      `category` query value, else '' (all categories); empty values count
      as missing. */
  function InitialCategory(routeParam: Option<string>, query: Option<string>): (sel: string)
    ensures Truthy(routeParam) ==> sel == routeParam.value
    ensures !Truthy(routeParam) && Truthy(query) ==> sel == query.value
    ensures sel == "" <==> !Truthy(routeParam) && !Truthy(query)
  {
    OrElse(routeParam, OrElse(query, ""))
  }

  /** The search box: the term occurs in the name, or in the short
      description when there is a non-empty one, ignoring case. */
  predicate MatchesSearch(p: Product, term: string) {
    || Contains(Lower(p.name), Lower(term))
    || (Truthy(p.shortDescription) && Contains(Lower(p.shortDescription.value), Lower(term)))
  }

  /** The selected category is the product's, named by its numeric id or its document id. */
  predicate InCategory(p: Product, selection: string) {
    p.category.Some? && (IntToDecimal(p.category.value.id) == selection || p.category.value.documentId == selection)
  }

  /** The category filter: everything for the empty selection. */
  predicate MatchesCategory(p: Product, selection: string) {
    selection == "" || InCategory(p, selection)
  }

  /** `filteredProducts`. */
  function FilterProducts(products: seq<Product>, term: string, selection: string): (r: seq<Product>)
    ensures forall p :: p in r <==> p in products && MatchesSearch(p, term) && MatchesCategory(p, selection)
  {
    Filter((p: Product) => MatchesSearch(p, term) && MatchesCategory(p, selection), products)
  }

  /** The list keeps load order; with a selection, products without a
      category never appear; an empty term with no selection lists all. */
  lemma FilterProductsFacts(products: seq<Product>, term: string, selection: string)
    ensures IsSubsequence(FilterProducts(products, term, selection), products)
    ensures selection != "" ==> forall p :: p in FilterProducts(products, term, selection) ==> p.category.Some?
    ensures FilterProducts(products, "", "") == products
  {
    FilterIsSubsequence((p: Product) => MatchesSearch(p, term) && MatchesCategory(p, selection), products);
    forall p | p in products
      ensures MatchesSearch(p, "")
    {
      ContainsEmpty(Lower(p.name));
    }
    FilterAll((p: Product) => MatchesSearch(p, "") && MatchesCategory(p, ""), products);
  }

  /** The host the list page loads uploaded images from. */
  const ImageHost := "http://192.168.31.177:1337"

  /** The card image used when a product has none. */
  const CardPlaceholder := "https://images.unsplash.com/photo-1518709268805-4e9042af2176?w=400&h=300&fit=crop"

  /** `getProductImage`: the prepared image URL when non-empty, else the
      first uploaded image on the image host, else the placeholder. */
  function ProductImage(p: Product): (url: string)
    ensures Truthy(p.productImageUrl) ==> url == p.productImageUrl.value
    ensures !Truthy(p.productImageUrl) && |p.images| > 0 ==>
      StartsWith(url, ImageHost) && url[|ImageHost|..] == p.images[0].url
    ensures !Truthy(p.productImageUrl) && |p.images| == 0 ==> url == CardPlaceholder
  {
    if Truthy(p.productImageUrl) then p.productImageUrl.value
    else if |p.images| > 0 then
      var url := ImageHost + p.images[0].url;
      assert url[..|ImageHost|] == ImageHost;
      url
    else CardPlaceholder
  }

  /** A card always has an image address. */
  lemma ProductImageNotEmpty(p: Product)
    ensures ProductImage(p) != ""
  {
  }

  /** The icons of the card's spec lines. */
  datatype SpecIcon = CpuIcon | HardDriveIcon | ZapIcon

  /** One line of a product card. */
  datatype CardSpec = CardSpec(icon: SpecIcon, caption: string, value: string)

  /** How many spec lines a card shows. */
  const CardSpecLimit := 3

  /** `getProductSpecs`: the name; the description's first 20 code units
      followed by "...", when there is a non-empty description; the
      category's name, when there is a category; then the first three. */
  function ProductSpecs(p: Product): (specs: seq<CardSpec>)
    ensures 1 <= |specs| <= CardSpecLimit
    ensures specs[0] == CardSpec(CpuIcon, "产品", p.name)
    ensures |specs| == 1 + (if Truthy(p.shortDescription) then 1 else 0) + (if p.category.Some? then 1 else 0)
    ensures Truthy(p.shortDescription) ==> specs[1] == CardSpec(HardDriveIcon, "描述", JsPrefix(p.shortDescription.value, 20) + "...")
    ensures p.category.Some? ==> specs[|specs| - 1] == CardSpec(ZapIcon, "分类", p.category.value.name)
  {
    var withName := [CardSpec(CpuIcon, "产品", p.name)];
    var withDescription := withName +
      (if Truthy(p.shortDescription) then [CardSpec(HardDriveIcon, "描述", JsPrefix(p.shortDescription.value, 20) + "...")] else []);
    var all := withDescription +
      (if p.category.Some? then [CardSpec(ZapIcon, "分类", p.category.value.name)] else []);
    Take(all, CardSpecLimit)
  }

  /** The description line always ends in "...", even for a description of
      20 code units or fewer, and shows the start of the description cut at
      20 units: all of it when it is that short, otherwise exactly 20 units. */
  lemma DescriptionLineAlwaysEllipsised(p: Product)
    requires Truthy(p.shortDescription)
    ensures var d := p.shortDescription.value;
      var v := ProductSpecs(p)[1].value;
      && |v| >= 3 && v[|v| - 3..] == "..."
      && CutOf(d, v[..|v| - 3])
      && JsLength(v) == (if JsLength(d) <= 20 then JsLength(d) else 20) + 3
      && (JsLength(d) <= 20 ==> v == d + "...")
  {
    var v := ProductSpecs(p)[1].value;
    var pre := JsPrefix(p.shortDescription.value, 20);
    assert v == pre + "...";
    assert v[..|v| - 3] == pre;
    EllipsisUnits(pre);
  }
}
