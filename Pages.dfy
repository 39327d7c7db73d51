/**
 * The fetched HTML, reduced to what the crawler reads from it, and the
 * values the field extractors compute from a listing's detail page.
 * The site is a finite set of known pages: any other URL serves a blank
 * page, which has no thumbnails and none of the detail elements.
 */
module Pages {
  import opened Wrappers
  import opened Text
  import opened Names

  /** An `<a href>` of a gallery page and whether a thumbnail `img` (class `img-responsive center-block`) sits inside it. */
  datatype Anchor = Anchor(href: string, hasThumb: bool)

  /** A gallery page: its anchors that carry an href, in document order, and whether any thumbnail image is on the page. */
  datatype GalleryPage = GalleryPage(anchors: seq<Anchor>, hasThumbnail: bool)

  /** A `<small>` tag: its text and whether other tags are nested in it. */
  datatype Small = Small(text: string, hasChildTags: bool)

  /** An `<a href>` of a detail page: its href, its text, and the `<small>` tags inside it in document order. */
  datatype Link = Link(href: string, text: string, smalls: seq<Small>)

  /** The first `img` of a given class: absent, present without a `src`, or present with one. */
  datatype ImgTag = NoImg | ImgWithoutSrc | Img(src: string)

  /** The first `div.col-xs-12`: absent, or present with the text of its `h1.pull-left` when it has one. */
  datatype PlateDiv = NoPlateDiv | PlateDiv(heading: Option<string>)

  /**
   * A listing's detail page: the links inside the centred caption heading
   * (`h3.text-center.margin-bottom-10`, None when the page has none), every
   * link of the page, the plate block, the real photo and the generated photo.
   */
  datatype DetailPage = DetailPage(
    heading: Option<seq<Link>>,
    links: seq<Link>,
    plateDiv: PlateDiv,
    realImg: ImgTag,
    generatedImg: ImgTag)

  /** What a page that raises while being read raises. */
  datatype Crash =
    | MissingSrc            // `image_tag['src']` on an img without src: KeyError
    | BadImageUrl           // `requests.get` on a src without an http(s) scheme, such as '': MissingSchema or InvalidSchema
    | MissingPlateHeading   // `h1_tag.text` when the plate block has no h1: AttributeError

  /** The place tag: the text of a plain `<small>`, or the empty list the extractor starts from. */
  datatype PlaceMeta = NoPlaceMeta | PlaceText(text: string)

  /** The pages the browser would render, by URL. */
  datatype Site = Site(galleries: map<string, GalleryPage>, details: map<string, DetailPage>)

  const BlankGallery: GalleryPage := GalleryPage([], false)
  const BlankDetail: DetailPage := DetailPage(None, [], NoPlateDiv, NoImg, NoImg)

  function FetchGallery(site: Site, url: string): (p: GalleryPage)
    ensures url !in site.galleries ==> !p.hasThumbnail
  {
    if url in site.galleries then site.galleries[url] else BlankGallery
  }

  function FetchDetail(site: Site, url: string): (p: DetailPage)
    ensures url !in site.details ==> p.realImg == NoImg
  {
    if url in site.details then site.details[url] else BlankDetail
  }

  /** Whether page `pageNum` of a gallery shows any thumbnail. */
  predicate HasThumbnails(site: Site, gallery: string, pageNum: nat) {
    FetchGallery(site, PageUrl(gallery, pageNum)).hasThumbnail
  }

  /** The anchors whose href matches the listing pattern, in document order. */
  function ListingAnchors(anchors: seq<Anchor>): (r: seq<Anchor>)
    ensures |r| <= |anchors|
  {
    if anchors == [] then []
    else
      var rest := ListingAnchors(anchors[..|anchors| - 1]);
      var last := anchors[|anchors| - 1];
      if IsListingHref(last.href) then rest + [last] else rest
  }

  /** An anchor is kept exactly when it is on the page and its href matches the listing pattern. */
  lemma {:induction false} ListingAnchorsMembers(anchors: seq<Anchor>)
    ensures forall a :: a in ListingAnchors(anchors) <==> a in anchors && IsListingHref(a.href)
  {
    if anchors != [] {
      var init := anchors[..|anchors| - 1];
      ListingAnchorsMembers(init);
      assert anchors == init + [anchors[|anchors| - 1]];
    }
  }

  /** Filtering keeps document order and duplicates: a concatenation filters piecewise. */
  lemma {:induction false} ListingAnchorsAppend(a: seq<Anchor>, b: seq<Anchor>)
    ensures ListingAnchors(a + b) == ListingAnchors(a) + ListingAnchors(b)
    decreases |b|
  {
    if b == [] {
      assert a + b == a;
    } else {
      var init, last := b[..|b| - 1], b[|b| - 1];
      ListingAnchorsAppend(a, init);
      var ab := a + b;
      assert ab[..|ab| - 1] == a + init;
      assert ab[|ab| - 1] == last;
      var rest := ListingAnchors(a + init);
      assert ListingAnchors(ab) == if IsListingHref(last.href) then rest + [last] else rest;
      assert ListingAnchors(b) == if IsListingHref(last.href) then ListingAnchors(init) + [last] else ListingAnchors(init);
    }
  }

  /** A single anchor survives the filter exactly when its href matches. */
  lemma ListingAnchorsOne(x: Anchor)
    ensures ListingAnchors([x]) == if IsListingHref(x.href) then [x] else []
  {
    assert [x][..0] == [];
  }

  /** Each anchor occurs in the filtered list as often as in the page when its href matches, and not at all otherwise. */
  lemma {:induction false} ListingAnchorsCount(anchors: seq<Anchor>, x: Anchor)
    ensures multiset(ListingAnchors(anchors))[x] == if IsListingHref(x.href) then multiset(anchors)[x] else 0
  {
    if anchors != [] {
      var init := anchors[..|anchors| - 1];
      ListingAnchorsCount(init, x);
      assert anchors == init + [anchors[|anchors| - 1]];
    }
  }

  /** The hrefs of the anchors that wrap a thumbnail image. */
  function ThumbHrefs(anchors: seq<Anchor>): set<string> {
    set a | a in anchors && a.hasThumb :: a.href
  }

  // --------------------------------------------------------------- caption

  /** The stripped texts of the caption links (href matching `^/catalog/`), in document order. */
  function CatalogTexts(links: seq<Link>): (r: seq<string>)
    ensures |r| <= |links|
  {
    if links == [] then []
    else
      var rest := CatalogTexts(links[..|links| - 1]);
      var last := links[|links| - 1];
      if IsCatalogHref(last.href) then rest + [Strip(last.text)] else rest
  }

  /** Every caption word is already stripped. */
  lemma {:induction false} CatalogTextsStripped(links: seq<Link>)
    ensures forall k :: 0 <= k < |CatalogTexts(links)| ==> IsStripped(CatalogTexts(links)[k])
  {
    if links != [] {
      var last := links[|links| - 1];
      CatalogTextsStripped(links[..|links| - 1]);
      assert CatalogTexts(links) == CatalogTexts(links[..|links| - 1]) + (if IsCatalogHref(last.href) then [Strip(last.text)] else []);
    }
  }

  /** One more link: its stripped text is appended when it is a caption link. */
  lemma CatalogTextsSnoc(links: seq<Link>, link: Link)
    ensures CatalogTexts(links + [link]) == CatalogTexts(links) + (if IsCatalogHref(link.href) then [Strip(link.text)] else [])
  {
    assert (links + [link])[..|links|] == links;
  }

  /** The indices of the caption links among `links`. */
  ghost function CatalogIndices(links: seq<Link>): set<nat> {
    set k: nat | k < |links| && IsCatalogHref(links[k].href)
  }

  /** One caption word per caption link: no link is dropped and none is counted twice. */
  lemma {:induction false} CatalogTextsCount(links: seq<Link>)
    ensures |CatalogTexts(links)| == |CatalogIndices(links)|
  {
    if links != [] {
      var n := |links| - 1;
      var init := links[..n];
      CatalogTextsCount(init);
      assert CatalogIndices(init) <= CatalogIndices(links) by {
        forall k | k in CatalogIndices(init) ensures k in CatalogIndices(links) { assert init[k] == links[k]; }
      }
      forall k | k in CatalogIndices(links) && k != n ensures k in CatalogIndices(init) { assert init[k] == links[k]; }
      if IsCatalogHref(links[n].href) {
        assert CatalogIndices(links) == CatalogIndices(init) + {n};
      } else {
        assert CatalogIndices(links) == CatalogIndices(init);
      }
    }
  }

  /** The caption: the stripped caption-link texts joined by single spaces, empty when there is no heading. */
  function LinkTextOf(heading: Option<seq<Link>>): string {
    match heading
    case None => ""
    case Some(links) => Join(CatalogTexts(links), ' ')
  }

  /** When no caption word holds a space, splitting the caption on spaces gives the words back in order. */
  lemma LinkTextWords(links: seq<Link>)
    requires |CatalogTexts(links)| >= 1
    requires forall k :: 0 <= k < |CatalogTexts(links)| ==> ' ' !in CatalogTexts(links)[k]
    ensures SplitOn(LinkTextOf(Some(links)), ' ') == CatalogTexts(links)
  {
    SplitJoin(CatalogTexts(links), ' ');
  }

  // ----------------------------------------------------------------- place

  /** The `<small>` tags inside the location links (href matching `^/gallery.php?`), in document order. */
  function GallerySmalls(links: seq<Link>): (r: seq<Small>)
  {
    if links == [] then []
    else
      var last := links[|links| - 1];
      GallerySmalls(links[..|links| - 1]) + (if IsGalleryHref(last.href) then last.smalls else [])
  }

  /** The last `<small>` with no nested tags wins; with none, the initial empty list stays. */
  function LastPlainSmall(smalls: seq<Small>): PlaceMeta {
    if smalls == [] then NoPlaceMeta
    else
      var last := smalls[|smalls| - 1];
      if !last.hasChildTags then PlaceText(last.text)
      else LastPlainSmall(smalls[..|smalls| - 1])
  }

  /** The place is empty exactly when every `<small>` has nested tags; otherwise it is the text of
      a plain `<small>` after which only `<small>` tags with nested tags follow. */
  lemma {:induction false} LastPlainSmallIs(smalls: seq<Small>)
    ensures LastPlainSmall(smalls) == NoPlaceMeta <==> forall k :: 0 <= k < |smalls| ==> smalls[k].hasChildTags
    ensures LastPlainSmall(smalls).PlaceText? ==>
      exists k :: 0 <= k < |smalls| && !smalls[k].hasChildTags && smalls[k].text == LastPlainSmall(smalls).text
                  && forall j :: k < j < |smalls| ==> smalls[j].hasChildTags
  {
    if smalls != [] && smalls[|smalls| - 1].hasChildTags {
      var init := smalls[..|smalls| - 1];
      LastPlainSmallIs(init);
      assert forall k :: 0 <= k < |init| ==> init[k] == smalls[k];
    }
  }

  /** One more `<small>`: a plain one takes over, one with nested tags changes nothing. */
  lemma LastPlainSmallSnoc(smalls: seq<Small>, s: Small)
    ensures LastPlainSmall(smalls + [s]) == if s.hasChildTags then LastPlainSmall(smalls) else PlaceText(s.text)
  {
    assert (smalls + [s])[..|smalls|] == smalls;
  }

  /** One more link: its `<small>` tags count when it is a location link. */
  lemma GallerySmallsSnoc(links: seq<Link>, link: Link)
    ensures GallerySmalls(links + [link]) == GallerySmalls(links) + (if IsGalleryHref(link.href) then link.smalls else [])
  {
    assert (links + [link])[..|links|] == links;
  }

  /** Later plain `<small>` tags override earlier ones. */
  lemma {:induction false} LastPlainSmallAppend(a: seq<Small>, b: seq<Small>)
    ensures LastPlainSmall(a + b) == if LastPlainSmall(b).PlaceText? then LastPlainSmall(b) else LastPlainSmall(a)
  {
    if b != [] {
      var b' := b[..|b| - 1];
      LastPlainSmallAppend(a, b');
      assert (a + b)[..|a + b| - 1] == a + b';
    } else {
      assert a + b == a;
    }
  }

  /** The place tag of a detail page. */
  function PlaceMetaOf(links: seq<Link>): PlaceMeta {
    LastPlainSmall(GallerySmalls(links))
  }

  // ----------------------------------------------------------------- plate

  /** The plate number: '' without a plate block, the stripped heading text with one; a block without heading raises. */
  function PlateNumber(div: PlateDiv): (r: Result<string, Crash>)
    ensures r.Err? <==> div == PlateDiv(None)
    ensures r.Err? ==> r.error == MissingPlateHeading
    ensures div == NoPlateDiv ==> r == Ok("")
    ensures r.Ok? && div.PlateDiv? ==> StripOf(div.heading.value, r.value)
  {
    match div
    case NoPlateDiv => Ok("")
    case PlateDiv(None) => Err(MissingPlateHeading)
    case PlateDiv(Some(t)) => Ok(Strip(t))
  }

  // ------------------------------------------------------------ pagination

  /** The gallery pages the site knows, from page `pageNum` on. */
  ghost function PagesFrom(site: Site, gallery: string, pageNum: nat): set<string> {
    set u | u in site.galleries && PageAt(gallery, u).Some? && PageAt(gallery, u).value >= pageNum
  }

  /** A page with thumbnails is a known page, so moving past it leaves fewer known pages ahead. */
  lemma PagesFromShrinks(site: Site, gallery: string, pageNum: nat)
    requires pageNum >= 1 && HasThumbnails(site, gallery, pageNum)
    ensures |PagesFrom(site, gallery, pageNum + 1)| < |PagesFrom(site, gallery, pageNum)|
  {
    var u := PageUrl(gallery, pageNum);
    PageAtPageUrl(gallery, pageNum);
    assert u in PagesFrom(site, gallery, pageNum);
    forall v | v in PagesFrom(site, gallery, pageNum) && v !in PagesFrom(site, gallery, pageNum + 1)
      ensures v == u
    {
      PageUrlPageAt(gallery, v);
    }
    assert PagesFrom(site, gallery, pageNum) == PagesFrom(site, gallery, pageNum + 1) + {u};
  }

  /** The first page from `pageNum` on that shows no thumbnail: every gallery of a finite site has one. */
  ghost function FirstEmptyPage(site: Site, gallery: string, pageNum: nat): (r: nat)
    requires pageNum >= 1
    ensures r >= pageNum && !HasThumbnails(site, gallery, r)
    decreases |PagesFrom(site, gallery, pageNum)|
  {
    if !HasThumbnails(site, gallery, pageNum) then pageNum
    else
      PagesFromShrinks(site, gallery, pageNum);
      FirstEmptyPage(site, gallery, pageNum + 1)
  }

  /** Every page from `pageNum` up to the first empty page has thumbnails. */
  lemma {:induction false} FirstEmptyPageBefore(site: Site, gallery: string, pageNum: nat, m: nat)
    requires 1 <= pageNum <= m < FirstEmptyPage(site, gallery, pageNum)
    ensures HasThumbnails(site, gallery, m)
    decreases |PagesFrom(site, gallery, pageNum)|
  {
    if m > pageNum {
      PagesFromShrinks(site, gallery, pageNum);
      FirstEmptyPageBefore(site, gallery, pageNum + 1, m);
    }
  }

  /** Walking the pages in order from the first, a page at or before the first empty page is the
      first empty page exactly when it has no thumbnails. */
  lemma FirstEmptyPageStep(site: Site, gallery: string, n: nat)
    requires 1 <= n <= FirstEmptyPage(site, gallery, 1)
    ensures HasThumbnails(site, gallery, n) <==> n < FirstEmptyPage(site, gallery, 1)
  {
    if n < FirstEmptyPage(site, gallery, 1) {
      FirstEmptyPageBefore(site, gallery, 1, n);
    }
  }

  /** The first empty page of each gallery, in order. */
  ghost function GalleryEnds(site: Site, galleries: seq<string>): (r: seq<nat>)
    ensures |r| == |galleries|
  {
    if galleries == [] then []
    else GalleryEnds(site, galleries[..|galleries| - 1]) + [FirstEmptyPage(site, galleries[|galleries| - 1], 1)]
  }

  lemma GalleryEndsSnoc(site: Site, galleries: seq<string>, g: nat)
    requires g < |galleries|
    ensures GalleryEnds(site, galleries[..g + 1]) == GalleryEnds(site, galleries[..g]) + [FirstEmptyPage(site, galleries[g], 1)]
  {
    assert galleries[..g + 1][..g] == galleries[..g];
  }

  lemma {:induction false} GalleryEndsAt(site: Site, galleries: seq<string>)
    ensures forall i :: 0 <= i < |galleries| ==> GalleryEnds(site, galleries)[i] == FirstEmptyPage(site, galleries[i], 1)
  {
    if galleries != [] {
      GalleryEndsAt(site, galleries[..|galleries| - 1]);
    }
  }

  /** A listing href wrapped around a thumbnail on the page at `url`. */
  ghost predicate ListedOn(site: Site, url: string, href: string) {
    exists a :: a in FetchGallery(site, url).anchors && a.href == href && a.hasThumb && IsListingHref(href)
  }
}
