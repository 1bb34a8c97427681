/** The content records the site reads from its CMS (the interfaces of
    src/services/api.ts), reduced to the fields the modelled logic reads. */
module Content {
  import opened Wrappers

  /** The category a product belongs to. */
  datatype CategoryRef = CategoryRef(id: int, name: string, documentId: string)

  /** An uploaded image; `url` is a server-relative path. */
  datatype Media = Media(url: string)

  /** A product. The optional text fields may be missing or `null` in the CMS
      response; an absent image list is the same as an empty one for every
      reader of it. Field names follow the CMS attributes: `cpuType` is
      `cpuLeiXing`, `memory` is `neiCun`, `networkCard` is `wangKa`,
      `displayInterface` is `xianShiJieKou`. */
  datatype Product = Product(
    documentId: string,
    slug: string,
    name: string,
    shortDescription: Option<string>,
    fullDescription: Option<string>,
    features: Option<string>,
    applications: Option<string>,
    cpuType: Option<string>,
    memory: Option<string>,
    networkCard: Option<string>,
    displayInterface: Option<string>,
    powerType: Option<string>,
    operatingSystem: Option<string>,
    operatingTemperature: Option<string>,
    category: Option<CategoryRef>,
    images: seq<Media>,
    productImageUrl: Option<string>
  )

  /** A news article; `content` may hold HTML markup. */
  datatype Article = Article(documentId: string, title: string, content: string, firstImageUrl: Option<string>)

  /** A file attached to a download-centre item. */
  datatype DownloadFile = DownloadFile(url: string, size: int, mime: string)

  /** An optional string is truthy in JavaScript when it is present and not empty. */
  predicate Truthy(s: Option<string>) {
    s.Some? && s.value != ""
  }

  /** `a || b` on optional strings: `a` when it is truthy, otherwise `b`. */
  function OrElse(a: Option<string>, b: string): string
  {
    if Truthy(a) then a.value else b
  }
}
