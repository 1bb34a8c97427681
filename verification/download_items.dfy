/** How the request service enriches download-centre items with a file
    URL, a size label and a file kind (`getDownloadItems` in
    src/services/api.ts). */
module DownloadItems {
  import opened Wrappers
  import opened Text
  import opened Seqs
  import opened Content

  /** The build the site runs in, which decides the service's base URL. */
  datatype BuildMode = Production | Development

  /** The service's base URL: a relative path behind the production proxy,
      the CMS host otherwise. */
  function BaseUrl(mode: BuildMode): string {
    match mode
    case Production => "/api"
    case Development => "http://aifafafa.xyz:1337"
  }

  /** The five file kinds a download can have. */
  datatype FileKind = Pdf | Image | Video | Archive | Document

  /** The kind's name, as stored in the item and compared by the downloads page. */
  function KindName(k: FileKind): (name: string)
    ensures name in ["pdf", "image", "video", "archive", "document"]
  {
    match k
    case Pdf => "pdf"
    case Image => "image"
    case Video => "video"
    case Archive => "archive"
    case Document => "document"
  }

  /** Distinct kinds have distinct names. */
  lemma KindNameInjective(a: FileKind, b: FileKind)
    requires KindName(a) == KindName(b)
    ensures a == b
  {
  }

  /** The MIME type names one of the archive formats. */
  predicate ArchiveMime(mime: string) {
    Contains(mime, "zip") || Contains(mime, "rar") || Contains(mime, "tar") || Contains(mime, "7z")
  }

  /** The kind of a file from its MIME type, by the first keyword found in
      the order pdf, image, video, archive formats; everything else,
      including the word-processor, spreadsheet, presentation and text
      types the source lists separately, is a document. */
  function ClassifyMime(mime: string): (k: FileKind)
    ensures k == Pdf <==> Contains(mime, "pdf")
    ensures k == Image <==> !Contains(mime, "pdf") && Contains(mime, "image")
    ensures k == Video <==> !Contains(mime, "pdf") && !Contains(mime, "image") && Contains(mime, "video")
    ensures k == Archive <==>
      !Contains(mime, "pdf") && !Contains(mime, "image") && !Contains(mime, "video") && ArchiveMime(mime)
    ensures k == Document <==>
      !Contains(mime, "pdf") && !Contains(mime, "image") && !Contains(mime, "video") && !ArchiveMime(mime)
  {
    if Contains(mime, "pdf") then Pdf
    else if Contains(mime, "image") then Image
    else if Contains(mime, "video") then Video
    else if ArchiveMime(mime) then Archive
    else if Contains(mime, "word") || Contains(mime, "excel") || Contains(mime, "powerpoint") || Contains(mime, "text") then Document
    else Document
  }

  /** The kind depends only on which keywords occur, so two MIME types with
      the same keywords get the same kind. */
  lemma ClassifyByKeywords(m1: string, m2: string)
    requires forall w :: w in ["pdf", "image", "video", "zip", "rar", "tar", "7z"] ==> (Contains(m1, w) <==> Contains(m2, w))
    ensures ClassifyMime(m1) == ClassifyMime(m2)
  {
    assert "pdf" in ["pdf", "image", "video", "zip", "rar", "tar", "7z"];
    assert "image" in ["pdf", "image", "video", "zip", "rar", "tar", "7z"];
    assert "video" in ["pdf", "image", "video", "zip", "rar", "tar", "7z"];
    assert "zip" in ["pdf", "image", "video", "zip", "rar", "tar", "7z"];
    assert "rar" in ["pdf", "image", "video", "zip", "rar", "tar", "7z"];
    assert "tar" in ["pdf", "image", "video", "zip", "rar", "tar", "7z"];
    assert "7z" in ["pdf", "image", "video", "zip", "rar", "tar", "7z"];
  }

  /** Common types: a PDF is a pdf, a ZIP an archive, plain text a
      document, and a type naming both 'image' and 'pdf' a pdf, because
      'pdf' is checked first. */
  lemma ClassifyExamples()
    ensures ClassifyMime("application/pdf") == Pdf
    ensures ClassifyMime("application/zip") == Archive
    ensures ClassifyMime("text/plain") == Document
    ensures ClassifyMime("image/pdf") == Pdf
  {
    assert OccursAt("application/pdf", "pdf", 12);
    assert OccursAt("image/pdf", "pdf", 6);
    assert OccursAt("application/zip", "zip", 12);
    assert "application/zip"[12] == 'z';
    NotContainedByChar("application/zip", "pdf", 'd');
    NotContainedByChar("application/zip", "image", 'm');
    NotContainedByChar("application/zip", "video", 'v');
    NotContainedByChar("text/plain", "pdf", 'd');
    NotContainedByChar("text/plain", "image", 'm');
    NotContainedByChar("text/plain", "video", 'v');
    NotContainedByChar("text/plain", "zip", 'z');
    NotContainedByChar("text/plain", "rar", 'r');
    NotContainedByChar("text/plain", "tar", 'r');
    NotContainedByChar("text/plain", "7z", '7');
  }

  /** A size label. Sizes below 1024 bytes are rendered exactly; larger
      ones are `size / divisor` rounded to one decimal by `toFixed(1)`,
      kept here as the quotient's operands and the unit. */
  datatype SizeLabel = Plain(text: string) | OneDecimal(size: int, divisor: int, unit: string)

  /** The label of a file of `size` bytes: "<size> B" below 1024, kilobytes
      below 1024 * 1024, megabytes above. */
  function FormatSize(size: int): (l: SizeLabel)
    ensures l.Plain? <==> size < 1024
    ensures l.OneDecimal? ==> l.size == size
    ensures l.OneDecimal? && size < 1024 * 1024 ==> l.divisor == 1024 && l.unit == " KB"
    ensures l.OneDecimal? && size >= 1024 * 1024 ==> l.divisor == 1024 * 1024 && l.unit == " MB"
  {
    if size < 1024 then Plain(IntToDecimal(size) + " B")
    else if size < 1024 * 1024 then OneDecimal(size, 1024, " KB")
    else OneDecimal(size, 1024 * 1024, " MB")
  }

  /** A byte label reads back as the size: the text is a decimal numeral,
      then " B", and the numeral's value is the size. */
  lemma ByteLabelRoundTrip(size: int)
    requires size < 1024
    ensures var t := FormatSize(size).text;
      && |t| >= 3 && t[|t| - 2..] == " B"
      && var digits := t[..|t| - 2];
      && (forall i :: (if digits[0] == '-' then 1 else 0) <= i < |digits| ==> IsDigit(digits[i]))
      && ParseInteger(digits) == size
  {
    var d := IntToDecimal(size);
    IntToDecimalRoundTrip(size);
    var t := FormatSize(size).text;
    assert t == d + " B";
    assert t[..|t| - 2] == d;
  }

  /** A download-centre item as the CMS sends it; `file` is absent when
      nothing was uploaded. */
  datatype CenterItem = CenterItem(documentId: string, title: string, description: string, category: string, file: Option<DownloadFile>)

  /** The item with the three fields the service adds. */
  datatype EnrichedItem = EnrichedItem(item: CenterItem, fileUrl: Option<string>, fileSize: Option<SizeLabel>, fileType: Option<FileKind>)

  /** One item of `getDownloadItems`: with a file, its URL on the base URL,
      its size label and its kind; without one, none of the three. */
  function Enrich(mode: BuildMode, item: CenterItem): (e: EnrichedItem)
    ensures e.item == item
    ensures item.file.None? <==> e.fileUrl.None?
    ensures item.file.None? <==> e.fileSize.None?
    ensures item.file.None? <==> e.fileType.None?
    ensures e.fileSize.Some? ==> e.fileSize.value == FormatSize(item.file.value.size)
    ensures e.fileType.Some? ==> e.fileType.value == ClassifyMime(item.file.value.mime)
    ensures e.fileUrl.Some? ==> StartsWith(e.fileUrl.value, BaseUrl(mode)) && e.fileUrl.value[|BaseUrl(mode)|..] == item.file.value.url
  {
    match item.file
    case None => EnrichedItem(item, None, None, None)
    case Some(f) =>
      var url := BaseUrl(mode) + f.url;
      assert url[..|BaseUrl(mode)|] == BaseUrl(mode);
      EnrichedItem(item, Some(url), Some(FormatSize(f.size)), Some(ClassifyMime(f.mime)))
  }

  /** `getDownloadItems`: every item enriched, none dropped or reordered. */
  function EnrichAll(mode: BuildMode, items: seq<CenterItem>): (r: seq<EnrichedItem>)
    ensures |r| == |items|
    ensures forall i :: 0 <= i < |items| ==> r[i].item == items[i]
    ensures forall i :: 0 <= i < |items| ==> r[i] == Enrich(mode, items[i])
  {
    Map((item: CenterItem) => Enrich(mode, item), items)
  }
}
