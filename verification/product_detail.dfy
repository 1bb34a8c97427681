/** The product detail page (src/pages/ProductDetail.tsx): its image list
    and thumbnail rule, the specification table and key-parameter panel,
    and the rewrite of root-relative image sources in the full description. */
module ProductDetail {
  import opened Wrappers
  import opened Text
  import opened Seqs
  import opened Content

  /** The host the detail page loads uploaded files from. */
  const DetailHost := "http://192.168.31.177:1337"

  /** The three stock photos shown for a product without images. */
  const DetailPlaceholders := [
    "https://images.unsplash.com/photo-1518709268805-4e9042af2176?w=600&h=400&fit=crop",
    "https://images.unsplash.com/photo-1581091226825-a6a2a5aee158?w=600&h=400&fit=crop",
    "https://images.unsplash.com/photo-1581092160562-40aa08e78837?w=600&h=400&fit=crop"
  ]

  /** The address of an uploaded image on the detail host. */
  function HostedUrl(m: Media): string {
    DetailHost + m.url
  }

  /** `getProductImages`: every uploaded image on the detail host, in
      order; the three stock photos when there are none. */
  function ProductImages(p: Product): (urls: seq<string>)
    ensures |p.images| > 0 ==> |urls| == |p.images| && forall i :: 0 <= i < |urls| ==> urls[i] == HostedUrl(p.images[i])
    ensures |p.images| == 0 ==> urls == DetailPlaceholders
  {
    if |p.images| > 0 then Map(HostedUrl, p.images) else DetailPlaceholders
  }

  /** The thumbnail strip is drawn when there is more than one image to show. */
  predicate ShowThumbnails(p: Product) {
    |ProductImages(p)| > 1
  }

  /** Thumbnails appear unless the product has exactly one image: a product
      without images shows the three stock photos, so it gets them too. */
  lemma ThumbnailsUnlessSingleImage(p: Product)
    ensures ShowThumbnails(p) <==> |p.images| != 1
  {
  }

  /** A row of the specification table; `value` is the attribute as loaded. */
  datatype SpecRow = SpecRow(caption: string, value: Option<string>)

  /** The seven attributes of the table, in display order. */
  function SpecRows(p: Product): (rows: seq<SpecRow>)
    ensures |rows| == 7
  {
    [ SpecRow("CPU类型", p.cpuType),
      SpecRow("内存", p.memory),
      SpecRow("网卡", p.networkCard),
      SpecRow("显示接口", p.displayInterface),
      SpecRow("电源类型", p.powerType),
      SpecRow("操作系统", p.operatingSystem),
      SpecRow("工作温度", p.operatingTemperature) ]
  }

  /** The row has a non-empty value. */
  predicate HasValue(row: SpecRow) {
    Truthy(row.value)
  }

  /** `specifications`: the rows whose value is present and not empty, in display order. */
  function Specifications(p: Product): (specs: seq<SpecRow>)
    ensures |specs| <= 7
    ensures forall row :: row in specs <==> row in SpecRows(p) && HasValue(row)
  {
    Filter(HasValue, SpecRows(p))
  }

  /** The table keeps the display order, and lists all seven rows exactly
      when every attribute has a value. */
  lemma SpecificationsFacts(p: Product)
    ensures IsSubsequence(Specifications(p), SpecRows(p))
    ensures |Specifications(p)| == 7 <==> forall row :: row in SpecRows(p) ==> HasValue(row)
  {
    FilterIsSubsequence(HasValue, SpecRows(p));
    if forall row :: row in SpecRows(p) ==> HasValue(row) {
      FilterAll(HasValue, SpecRows(p));
    }
    if |Specifications(p)| == 7 {
      FilterFullLength(HasValue, SpecRows(p));
    }
  }

  /** A filter that keeps as many elements as its input keeps them all. */
  lemma {:induction false} FilterFullLength<T(!new)>(f: T -> bool, xs: seq<T>)
    requires |Filter(f, xs)| == |xs|
    ensures forall x :: x in xs ==> f(x)
  {
    if xs != [] {
      assert |Filter(f, xs[1..])| <= |xs[1..]|;
      FilterFullLength(f, xs[1..]);
    }
  }

  /** How many rows the key-parameter panel shows. */
  const KeyParamCount := 6

  /** The key-parameter panel: the first six rows of the table. */
  function KeyParams(p: Product): (shown: seq<SpecRow>)
    ensures |shown| == if |Specifications(p)| <= KeyParamCount then |Specifications(p)| else KeyParamCount
    ensures shown == Specifications(p)[..|shown|]
  {
    Take(Specifications(p), KeyParamCount)
  }

  /** The panel drops at most one row: the working temperature, and only
      when all seven attributes have values. */
  lemma KeyParamsDropAtMostTemperature(p: Product)
    ensures |Specifications(p)| - |KeyParams(p)| <= 1
    ensures |KeyParams(p)| < |Specifications(p)| ==> Specifications(p)[6] == SpecRow("工作温度", p.operatingTemperature)
  {
    if |KeyParams(p)| < |Specifications(p)| {
      SpecificationsFacts(p);
      FilterAll(HasValue, SpecRows(p));
    }
  }

  // ---------------------------------------------------------------------
  // The full-description rewrite: replace(/src="\//g, 'src="' + host + '/')
  // ---------------------------------------------------------------------

  /** A root-relative image source. */
  const SrcPattern := "src=\"/"

  /** What each root-relative source becomes: the same source on the detail host. */
  const SrcReplacement := "src=\"" + DetailHost + "/"

  /** The global replacement, scanning left to right: each occurrence is
      replaced and scanning resumes after it. */
  function RewriteSrc(s: string): string
    decreases |s|
  {
    if StartsWith(s, SrcPattern) then SrcReplacement + RewriteSrc(s[|SrcPattern|..])
    else if s == [] then []
    else [s[0]] + RewriteSrc(s[1..])
  }

  /** Away from a root-relative source the rewrite copies one character and moves on. */
  lemma RewriteStep(v: string)
    requires v != [] && !StartsWith(v, SrcPattern)
    ensures RewriteSrc(v) == [v[0]] + RewriteSrc(v[1..])
  {
  }

  /** A string made of a first character and a tail starts with a non-empty
      `q` when the first characters agree and the tail starts with the rest of `q`. */
  lemma StartsWithCons(c: char, x: string, q: string)
    requires q != []
    ensures StartsWith([c] + x, q) <==> c == q[0] && StartsWith(x, q[1..])
  {
    if c == q[0] && StartsWith(x, q[1..]) {
      assert ([c] + x)[..|q|] == [c] + x[..|q| - 1];
    }
    if StartsWith([c] + x, q) {
      assert x[..|q| - 1] == ([c] + x)[1..|q|];
    }
  }

  /** For a prefix without the letter 's', the rewritten text starts with it
      exactly when the original does: every replacement begins with 's'. */
  lemma {:induction false} RewritePrefixWithoutS(v: string, q: string)
    requires 's' !in q
    ensures StartsWith(RewriteSrc(v), q) <==> StartsWith(v, q)
    decreases |v|
  {
    if q == [] {
    } else if StartsWith(v, SrcPattern) {
      assert RewriteSrc(v)[0] == 's' && v[0] == 's';
      assert q[0] != 's';
    } else if v != [] {
      RewriteStep(v);
      RewritePrefixWithoutS(v[1..], q[1..]);
      StartsWithCons(v[0], RewriteSrc(v[1..]), q);
      StartsWithCons(v[0], v[1..], q);
      assert v == [v[0]] + v[1..];
    }
  }

  /** The rewritten text never starts with a root-relative source. */
  lemma NoSourceAtHead(s: string)
    ensures !StartsWith(RewriteSrc(s), SrcPattern)
  {
    if StartsWith(s, SrcPattern) {
      assert RewriteSrc(s)[5] == 'h';
    } else if s != [] {
      RewriteStep(s);
      RewritePrefixWithoutS(s[1..], SrcPattern[1..]);
      StartsWithCons(s[0], RewriteSrc(s[1..]), SrcPattern);
      StartsWithCons(s[0], s[1..], SrcPattern);
      assert s == [s[0]] + s[1..];
    }
  }

  /** The only 's' of the replacement is its first character. */
  lemma ReplacementLetters()
    ensures |SrcReplacement| == 32
    ensures forall k :: 1 <= k < |SrcReplacement| ==> SrcReplacement[k] != 's'
  {
  }

  /** After the rewrite no root-relative source is left. */
  lemma {:induction false} RewriteLeavesNoRelativeSource(s: string)
    ensures !Contains(RewriteSrc(s), SrcPattern)
    decreases |s|
  {
    var out := RewriteSrc(s);
    if StartsWith(s, SrcPattern) {
      var rest := RewriteSrc(s[|SrcPattern|..]);
      RewriteLeavesNoRelativeSource(s[|SrcPattern|..]);
      ReplacementLetters();
      assert out == SrcReplacement + rest;
      forall i | 0 <= i <= |out| - |SrcPattern|
        ensures !OccursAt(out, SrcPattern, i)
      {
        if i == 0 {
          NoSourceAtHead(s);
        } else if i < |SrcReplacement| {
          assert out[i] == SrcReplacement[i];
          assert out[i..i + |SrcPattern|][0] == out[i];
        } else {
          var j := i - |SrcReplacement|;
          assert out[i..i + |SrcPattern|] == rest[j..j + |SrcPattern|];
          assert !OccursAt(rest, SrcPattern, j);
        }
      }
    } else if s != [] {
      var rest := RewriteSrc(s[1..]);
      RewriteLeavesNoRelativeSource(s[1..]);
      assert out == [s[0]] + rest;
      forall i | 0 <= i <= |out| - |SrcPattern|
        ensures !OccursAt(out, SrcPattern, i)
      {
        if i == 0 {
          NoSourceAtHead(s);
        } else {
          assert out[i..i + |SrcPattern|] == rest[i - 1..i - 1 + |SrcPattern|];
          assert !OccursAt(rest, SrcPattern, i - 1);
        }
      }
    }
  }

  /** An occurrence in the tail is an occurrence in the whole. */
  lemma ContainsInTail(s: string, t: string)
    requires s != []
    ensures Contains(s[1..], t) ==> Contains(s, t)
  {
    if Contains(s[1..], t) {
      var i :| 0 <= i <= |s[1..]| - |t| && OccursAt(s[1..], t, i);
      assert s[i + 1..i + 1 + |t|] == s[1..][i..i + |t|];
      assert OccursAt(s, t, i + 1);
    }
  }

  /** Text without a root-relative source is left exactly as it was. */
  lemma {:induction false} RewriteWithoutSourceIsIdentity(s: string)
    requires !Contains(s, SrcPattern)
    ensures RewriteSrc(s) == s
    decreases |s|
  {
    if s != [] {
      assert !OccursAt(s, SrcPattern, 0);
      assert !StartsWith(s, SrcPattern);
      ContainsInTail(s, SrcPattern);
      RewriteWithoutSourceIsIdentity(s[1..]);
    }
  }

  /** The description panel: the rewritten full description when it is
      non-empty; otherwise the page shows the image grid instead. */
  function DescriptionHtml(p: Product): (html: Option<string>)
    ensures html.Some? <==> Truthy(p.fullDescription)
    ensures html.Some? ==> !Contains(html.value, SrcPattern)
  {
    if Truthy(p.fullDescription) then
      RewriteLeavesNoRelativeSource(p.fullDescription.value);
      Some(RewriteSrc(p.fullDescription.value))
    else None
  }
}
