/** The download centre page (src/pages/Downloads.tsx): its three filters,
    the per-kind icon and colour, and the download-count label. */
module DownloadsPage {
  import opened Text
  import opened Seqs
  import opened DownloadItems

  /** A row of the page's list. `fileType` is one of the kind names for
      the page's own data, but the helpers accept any string. */
  datatype PageItem = PageItem(id: int, title: string, description: string, fileType: string, category: string, downloadCount: int)

  /** A selector value that switches its filter off: '' or '全部'. */
  predicate SelectsAll(selection: string) {
    selection == "" || selection == "全部"
  }

  /** The search box: the lower-cased term occurs in the lower-cased title or description. */
  predicate MatchesSearch(item: PageItem, term: string) {
    Contains(Lower(item.title), Lower(term)) || Contains(Lower(item.description), Lower(term))
  }

  /** The category selector. */
  predicate MatchesCategory(item: PageItem, selection: string) {
    SelectsAll(selection) || item.category == selection
  }

  /** The file-type selector. */
  predicate MatchesFileType(item: PageItem, selection: string) {
    SelectsAll(selection) || item.fileType == selection
  }

  /** `filteredDownloads`: the items passing all three filters, in list order. */
  function FilterDownloads(items: seq<PageItem>, term: string, category: string, fileType: string): (r: seq<PageItem>)
    ensures forall x :: x in r <==> x in items && MatchesSearch(x, term) && MatchesCategory(x, category) && MatchesFileType(x, fileType)
  {
    Filter((x: PageItem) => MatchesSearch(x, term) && MatchesCategory(x, category) && MatchesFileType(x, fileType), items)
  }

  /** The combined filter is the three filters applied one after the other,
      file type first, and it keeps the list's order. */
  lemma FilterDownloadsStaged(items: seq<PageItem>, term: string, category: string, fileType: string)
    ensures FilterDownloads(items, term, category, fileType) ==
      Filter((x: PageItem) => MatchesSearch(x, term),
        Filter((x: PageItem) => MatchesCategory(x, category),
          Filter((x: PageItem) => MatchesFileType(x, fileType), items)))
    ensures IsSubsequence(FilterDownloads(items, term, category, fileType), items)
  {
    var s := (x: PageItem) => MatchesSearch(x, term);
    var c := (x: PageItem) => MatchesCategory(x, category);
    var t := (x: PageItem) => MatchesFileType(x, fileType);
    FilterConjunction(c, t, items);
    FilterConjunction(s, Both(c, t), items);
    FilterAgree((x: PageItem) => MatchesSearch(x, term) && MatchesCategory(x, category) && MatchesFileType(x, fileType),
      Both(s, Both(c, t)), items);
    FilterIsSubsequence((x: PageItem) => MatchesSearch(x, term) && MatchesCategory(x, category) && MatchesFileType(x, fileType), items);
  }

  /** An empty search with both selectors on "all" lists every item. */
  lemma EmptyFiltersKeepAll(items: seq<PageItem>, category: string, fileType: string)
    requires SelectsAll(category) && SelectsAll(fileType)
    ensures FilterDownloads(items, "", category, fileType) == items
  {
    forall x | x in items
      ensures MatchesSearch(x, "")
    {
      ContainsEmpty(Lower(x.title));
    }
    FilterAll((x: PageItem) => MatchesSearch(x, "") && MatchesCategory(x, category) && MatchesFileType(x, fileType), items);
  }

  /** The search ignores letter case in the term. */
  lemma SearchCaseInsensitive(item: PageItem, t1: string, t2: string)
    requires Lower(t1) == Lower(t2)
    ensures MatchesSearch(item, t1) <==> MatchesSearch(item, t2)
  {
  }

  /** The icons the page draws for a file kind. */
  datatype Icon = FileTextIcon | ImageIcon | VideoIcon | ArchiveIcon

  /** `getFileIcon`: pdf and document share the text icon, which is also the default. */
  function FileIcon(fileType: string): Icon {
    if fileType == "pdf" || fileType == "document" then FileTextIcon
    else if fileType == "image" then ImageIcon
    else if fileType == "video" then VideoIcon
    else if fileType == "archive" then ArchiveIcon
    else FileTextIcon
  }

  /** The colour of types the switch does not list. */
  const DefaultTypeColor := "text-gray-600 bg-gray-50"

  /** `getFileTypeColor`. */
  function FileTypeColor(fileType: string): string {
    if fileType == "pdf" || fileType == "document" then "text-red-600 bg-red-50"
    else if fileType == "image" then "text-green-600 bg-green-50"
    else if fileType == "video" then "text-purple-600 bg-purple-50"
    else if fileType == "archive" then "text-blue-600 bg-blue-50"
    else DefaultTypeColor
  }

  /** Every kind the service can classify a file as has its own icon and a
      colour other than the default; two kinds look the same exactly when
      they are equal or are pdf and document. */
  lemma KindAppearance(a: FileKind, b: FileKind)
    ensures FileTypeColor(KindName(a)) != DefaultTypeColor
    ensures (FileTypeColor(KindName(a)) == FileTypeColor(KindName(b))) <==>
      (a == b || (a in {Pdf, Document} && b in {Pdf, Document}))
    ensures (FileIcon(KindName(a)) == FileIcon(KindName(b))) <==>
      (a == b || (a in {Pdf, Document} && b in {Pdf, Document}))
  {
  }

  /** A type that is none of the five kind names gets the default look. */
  lemma UnknownTypeDefault(fileType: string)
    requires fileType !in ["pdf", "image", "video", "archive", "document"]
    ensures FileTypeColor(fileType) == DefaultTypeColor && FileIcon(fileType) == FileTextIcon
  {
  }

  /** A download-count label: exact below 1000; otherwise `count / 1000`
      rounded to one decimal by `toFixed(1)` and followed by 'k', kept
      here as the count. */
  datatype CountLabel = Exact(text: string) | Thousands(count: int)

  /** `formatDownloadCount`. */
  function FormatDownloadCount(count: int): (l: CountLabel)
    ensures l.Exact? <==> count < 1000
    ensures l.Thousands? ==> l.count == count
  {
    if count >= 1000 then Thousands(count) else Exact(IntToDecimal(count))
  }

  /** A count below 1000 is shown as a decimal numeral that reads back as the count. */
  lemma ExactCountRoundTrip(count: int)
    requires count < 1000
    ensures var t := FormatDownloadCount(count).text;
      && |t| >= 1
      && (forall i :: (if t[0] == '-' then 1 else 0) <= i < |t| ==> IsDigit(t[i]))
      && ParseInteger(t) == count
  {
    IntToDecimalRoundTrip(count);
  }
}
