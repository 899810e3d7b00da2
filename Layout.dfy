/**
 * The page compositor of the image-to-PDF conversion: the page size chosen
 * from the `pageSize` and `orientation` options, and the rectangle at which
 * an image is drawn on that page under the `fit` option. Geometry is over
 * exact rationals, in PDF points with the origin at the bottom-left corner.
 */
module Layout {
  import opened JsText

  datatype PageSize = PageSize(width: real, height: real)

  /** Intrinsic size of the decoded image, in pixels. */
  datatype ImageSize = ImageSize(width: real, height: real)

  /** Where and how large the image is drawn. */
  datatype Placement = Placement(x: real, y: real, width: real, height: real)

  const A4 := PageSize(595.0, 842.0)
  const Letter := PageSize(612.0, 792.0)
  const Legal := PageSize(612.0, 1008.0)

  /** The blank space the `contain` fit takes off the constraining page side. */
  const ContainMargin: real := 40.0

  /** The named size in portrait orientation; anything unrecognised or absent is A4. */
  function NamedSize(pageSize: Option<string>): (p: PageSize)
    ensures p == A4 || p == Letter || p == Legal
  {
    if Truthy(pageSize) && pageSize.value == "letter" then Letter
    else if Truthy(pageSize) && pageSize.value == "legal" then Legal
    else A4
  }

  function Swap(p: PageSize): PageSize
  {
    PageSize(p.height, p.width)
  }

  /**
   * The page size of every page of an image conversion. All three named sizes
   * are taller than wide, so the page is wider than tall exactly when the
   * orientation option is "landscape".
   */
  function ResolvePageSize(pageSize: Option<string>, orientation: Option<string>): (p: PageSize)
    ensures p.width > 0.0 && p.height > 0.0
    ensures orientation == Some("landscape") <==> p.width > p.height
    ensures p == NamedSize(pageSize) || p == Swap(NamedSize(pageSize))
  {
    var p := NamedSize(pageSize);
    if orientation == Some("landscape") then Swap(p) else p
  }

  /** The size table: letter, legal, and A4 for every other value. */
  lemma PageSizeTable(pageSize: Option<string>, orientation: Option<string>)
    requires orientation != Some("landscape")
    ensures pageSize == Some("letter") ==> ResolvePageSize(pageSize, orientation) == PageSize(612.0, 792.0)
    ensures pageSize == Some("legal") ==> ResolvePageSize(pageSize, orientation) == PageSize(612.0, 1008.0)
    ensures pageSize != Some("letter") && pageSize != Some("legal") ==>
              ResolvePageSize(pageSize, orientation) == PageSize(595.0, 842.0)
  {
  }

  /** Landscape is the portrait size with its sides swapped, whatever the name. */
  lemma LandscapeSwaps(pageSize: Option<string>, other: Option<string>)
    requires other != Some("landscape")
    ensures ResolvePageSize(pageSize, Some("landscape")) == Swap(ResolvePageSize(pageSize, other))
  {
  }

  // ---------------------------------------------------------------------
  // Fit

  datatype Fit = Contain | Cover | Stretch

  /** `conversionOptions.fit || 'contain'` matched against the three cases; None when no case matches. */
  function ParseFit(fit: Option<string>): (f: Option<Fit>)
    ensures f == None <==> Truthy(fit) && fit.value != "contain" && fit.value != "cover" && fit.value != "stretch"
  {
    var name := if Truthy(fit) then fit.value else "contain";
    if name == "contain" then Some(Contain)
    else if name == "cover" then Some(Cover)
    else if name == "stretch" then Some(Stretch)
    else None
  }

  /** The image is relatively wider than the page. */
  predicate WiderThanPage(ar: real, page: PageSize)
    requires page.height > 0.0
  {
    ar > page.width / page.height
  }

  function Centered(page: PageSize, width: real, height: real): (r: Placement)
    ensures r.width == width && r.height == height
    ensures r.x + r.width / 2.0 == page.width / 2.0 && r.y + r.height / 2.0 == page.height / 2.0
  {
    Placement((page.width - width) / 2.0, (page.height - height) / 2.0, width, height)
  }

  function ContainRect(ar: real, page: PageSize): Placement
    requires ar > 0.0 && page.height > 0.0
  {
    if WiderThanPage(ar, page) then
      var width := page.width - ContainMargin;
      Centered(page, width, width / ar)
    else
      var height := page.height - ContainMargin;
      Centered(page, height * ar, height)
  }

  function CoverRect(ar: real, page: PageSize): Placement
    requires ar > 0.0 && page.height > 0.0
  {
    if WiderThanPage(ar, page) then
      Centered(page, page.height * ar, page.height)
    else
      Centered(page, page.width, page.width / ar)
  }

  function AspectRatio(img: ImageSize): (ar: real)
    requires img.width > 0.0 && img.height > 0.0
    ensures ar > 0.0
  {
    img.width / img.height
  }

  /**
   * The placement of one image on one page, or None when the fit option names
   * no known fit (the source then leaves the rectangle undefined).
   */
  function Place(img: ImageSize, page: PageSize, fit: Option<string>): (r: Option<Placement>)
    requires img.width > 0.0 && img.height > 0.0 && page.width > 0.0 && page.height > 0.0
    ensures r.None? <==> ParseFit(fit).None?
  {
    var ar := AspectRatio(img);
    match ParseFit(fit)
    case None => None
    case Some(Contain) => Some(ContainRect(ar, page))
    case Some(Cover) => Some(CoverRect(ar, page))
    case Some(Stretch) => Some(Placement(0.0, 0.0, page.width, page.height))
  }

  /** A missing or empty fit option behaves as "contain". */
  lemma DefaultFitIsContain(img: ImageSize, page: PageSize, fit: Option<string>)
    requires img.width > 0.0 && img.height > 0.0 && page.width > 0.0 && page.height > 0.0
    requires fit == None || fit == Some("")
    ensures Place(img, page, fit) == Place(img, page, Some("contain"))
    ensures Place(img, page, fit).Some?
  {
  }

  /** "stretch" fills the page exactly, whatever the image. */
  lemma StretchFillsPage(img: ImageSize, page: PageSize)
    requires img.width > 0.0 && img.height > 0.0 && page.width > 0.0 && page.height > 0.0
    ensures Place(img, page, Some("stretch")) == Some(Placement(0.0, 0.0, page.width, page.height))
  {
  }

  lemma MulMonotone(a: real, b: real, c: real)
    requires c > 0.0 && a <= b
    ensures a * c <= b * c
  {
  }

  /** A side shorter than the page's, divided by a ratio above the page's, stays below the page height. */
  lemma ShorterThanPage(w: real, ar: real, pw: real, ph: real)
    requires ph > 0.0 && ar > 0.0 && 0.0 < w < pw && ar > pw / ph
    ensures w / ar < ph
  {
    var pr := pw / ph;
    assert pr * ph == pw;
    MulMonotone(pr, ar, ph);
    var h := w / ar;
    assert h * ar == w;
    assert h * ar < ar * ph;
    if h >= ph {
      MulMonotone(ph, h, ar);
    }
  }

  /** A side shorter than the page's, times a ratio at most the page's, stays below the page width. */
  lemma NarrowerThanPage(h: real, ar: real, pw: real, ph: real)
    requires ph > 0.0 && pw > 0.0 && ar > 0.0 && 0.0 < h < ph && ar <= pw / ph
    ensures h * ar < pw
  {
    var pr := pw / ph;
    assert pr * ph == pw;
    MulMonotone(ar, pr, h);
    assert ar * h <= pr * h;
    assert pr * h < pr * ph;
  }

  lemma MulStrict(a: real, b: real, c: real)
    requires c > 0.0 && a < b
    ensures a * c < b * c
  {
  }

  /** The page height times a ratio above the page's exceeds the page width. */
  lemma WiderThanPageWidth(ar: real, pw: real, ph: real)
    requires ph > 0.0 && pw > 0.0 && ar > pw / ph
    ensures ph * ar > pw
  {
    var pr := pw / ph;
    assert pr * ph == pw;
    MulStrict(pr, ar, ph);
    assert ph * ar == ar * ph;
  }

  /** The page width divided by a ratio at most the page's reaches the page height. */
  lemma TallerThanPageHeight(ar: real, pw: real, ph: real)
    requires ph > 0.0 && pw > 0.0 && ar > 0.0 && ar <= pw / ph
    ensures pw / ar >= ph
  {
    var pr := pw / ph;
    assert pr * ph == pw;
    var h := pw / ar;
    assert h * ar == pw;
    MulMonotone(ar, pr, ph);
    if h < ph {
      MulMonotone(h, ph, ar);
      assert h * ar <= ph * ar;
    }
  }

  /** Place with "contain" and "cover" is the corresponding rectangle. */
  lemma PlaceNamed(img: ImageSize, page: PageSize)
    requires img.width > 0.0 && img.height > 0.0 && page.width > 0.0 && page.height > 0.0
    ensures Place(img, page, Some("contain")) == Some(ContainRect(img.width / img.height, page))
    ensures Place(img, page, Some("cover")) == Some(CoverRect(img.width / img.height, page))
  {
    assert ParseFit(Some("contain")) == Some(Contain);
    assert ParseFit(Some("cover")) == Some(Cover);
  }

  /**
   * "contain": the image keeps its aspect ratio, is centred, lies inside the
   * page, and the side picked by the comparison is the page side less 40 points.
   */
  lemma ContainFits(img: ImageSize, page: PageSize)
    requires img.width > 0.0 && img.height > 0.0
    requires page.width > ContainMargin && page.height > ContainMargin
    ensures var r := Place(img, page, Some("contain")).value;
            && r.width > 0.0 && r.height > 0.0
            && r.width / r.height == img.width / img.height
            && r.x == (page.width - r.width) / 2.0 && r.y == (page.height - r.height) / 2.0
            && 0.0 <= r.x && 0.0 <= r.y
            && r.x + r.width <= page.width && r.y + r.height <= page.height
            && (if img.width / img.height > page.width / page.height
                then r.width == page.width - ContainMargin
                else r.height == page.height - ContainMargin)
  {
    PlaceNamed(img, page);
    var ar := img.width / img.height;
    var r := ContainRect(ar, page);
    if WiderThanPage(ar, page) {
      ShorterThanPage(page.width - ContainMargin, ar, page.width, page.height);
    } else {
      NarrowerThanPage(page.height - ContainMargin, ar, page.width, page.height);
      assert r.width / r.height == ar;
    }
  }

  /**
   * "cover": the image keeps its aspect ratio and is centred; it either takes
   * the page height and overflows the width (image relatively wider than the
   * page) or takes the page width and overflows the height.
   */
  lemma CoverFills(img: ImageSize, page: PageSize)
    requires img.width > 0.0 && img.height > 0.0 && page.width > 0.0 && page.height > 0.0
    ensures var r := Place(img, page, Some("cover")).value;
            && r.width > 0.0 && r.height > 0.0
            && r.width / r.height == img.width / img.height
            && r.x == (page.width - r.width) / 2.0 && r.y == (page.height - r.height) / 2.0
            && r.x <= 0.0 && r.y <= 0.0
            && (if img.width / img.height > page.width / page.height
                then r.height == page.height && r.width >= page.width
                else r.width == page.width && r.height >= page.height)
  {
    PlaceNamed(img, page);
    var ar := img.width / img.height;
    var r := CoverRect(ar, page);
    if WiderThanPage(ar, page) {
      WiderThanPageWidth(ar, page.width, page.height);
      assert r.width / r.height == ar;
    } else {
      TallerThanPageHeight(ar, page.width, page.height);
    }
  }

  /**
   * The 40-point margin is kept only on the side picked by the comparison: an
   * image whose ratio is just under A4's gets 14.5 points, not 20, on each
   * side of the other axis.
   */
  lemma ContainOtherAxisMargin()
    ensures var r := Place(ImageSize(566.0, 802.0), A4, None).value;
            r.height == 802.0 && r.width == 566.0 && r.x == 14.5 && r.y == 20.0
  {
    PlaceNamed(ImageSize(566.0, 802.0), A4);
    assert !WiderThanPage(566.0 / 802.0, A4);
  }
}
