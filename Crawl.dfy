/**
 * The crawl: galleries, then their pages until the first page without
 * thumbnails, then the listings of each page. A listing is kept only when
 * its directory is new and its real photo is found; every kept listing is
 * added to the in-memory record map, and the category's JSON file is
 * rewritten with the whole map at once. The map is emptied after each
 * gallery. The filesystem is a set of directories and a map from file path
 * to what was last written there.
 */
module Crawl {
  import opened Wrappers
  import opened Text
  import opened Names
  import opened Pages

  /** One listing's JSON record. `generatedImg` None stands for JSON null. */
  datatype Record = Record(
    adsLink: string,
    linkText: string,
    mainImg: string,
    generatedImg: Option<string>,
    placeMeta: PlaceMeta,
    plateNumber: string)

  /** What a file holds: the bytes downloaded from an image URL, or a category's record map. */
  datatype Content = ImageData(url: string) | JsonRecords(records: map<string, Record>)

  /** What happened to one listing anchor. */
  datatype Visit = NoThumbnail | DirExisted | NoRealPhoto | Recorded | Crashed(crash: Crash)

  /** How the crawl ended: it ran to completion, or an exception escaped it. */
  datatype Outcome = Finished | Aborted(crash: Crash)

  /** Every record is keyed by a listing href, links back to that href, and names a real photo. */
  ghost predicate RecordsOk(m: map<string, Record>) {
    forall k :: k in m ==> IsListingHref(k) && m[k].adsLink == AdsLink(k) && m[k].mainImg != ""
  }

  /** No file went missing, and every record map written since `before` is well formed. */
  ghost predicate WritesOk(before: map<string, Content>, files: map<string, Content>) {
    && before.Keys <= files.Keys
    && forall p :: p in files && (p !in before || files[p] != before[p]) && files[p].JsonRecords?
         ==> RecordsOk(files[p].records)
  }

  /** The record of `h` was added or replaced between `before` and `after`. */
  ghost predicate Changed(before: map<string, Record>, after: map<string, Record>, h: string) {
    h in after && (h !in before || after[h] != before[h])
  }

  /** Writing files since `before` left the file at `path` as it was. */
  ghost predicate Untouched(before: map<string, Content>, after: map<string, Content>, path: string) {
    (path in after <==> path in before) && (path in after ==> after[path] == before[path])
  }

  /** The file at `path` holds exactly the record map `data`. */
  ghost predicate Synced(files: map<string, Content>, path: string, data: map<string, Record>) {
    path in files && files[path] == JsonRecords(data)
  }

  lemma WritesOkTrans(a: map<string, Content>, b: map<string, Content>, c: map<string, Content>)
    requires WritesOk(a, b) && WritesOk(b, c)
    ensures WritesOk(a, c)
  {
  }

  lemma ChangedTrans(a: map<string, Record>, b: map<string, Record>, c: map<string, Record>, h: string)
    requires Changed(a, c, h)
    ensures Changed(a, b, h) || Changed(b, c, h)
  {
  }

  /** Adding a well-formed record keeps the map well formed. */
  lemma RecordsOkUpdate(m: map<string, Record>, href: string, rec: Record)
    requires RecordsOk(m) && IsListingHref(href) && rec.adsLink == AdsLink(href) && rec.mainImg != ""
    ensures RecordsOk(m[href := rec])
  {
  }

  /** Writing images, or a well-formed record map, keeps every write well formed. */
  lemma WritesOkImage(before: map<string, Content>, files: map<string, Content>, path: string, url: string)
    requires WritesOk(before, files)
    ensures WritesOk(before, files[path := ImageData(url)])
  {
  }

  lemma WritesOkJson(before: map<string, Content>, files: map<string, Content>, path: string, m: map<string, Record>)
    requires WritesOk(before, files) && RecordsOk(m)
    ensures WritesOk(before, files[path := JsonRecords(m)])
  {
  }

  /** The parent directories `os.makedirs(dir)` creates along with `dir`. */
  function Ancestors(dir: string): set<string> {
    if |dir| <= 1 then {}
    else
      var parent := dir[..|dir| - 1];
      Ancestors(parent) + (if dir[|dir| - 1] == '/' then {parent} else {})
  }

  /** What `save_image` raises for an img tag, if anything: an img without `src`, or a src `requests.get` refuses. */
  function ImageCrash(tag: ImgTag): Option<Crash> {
    match tag
    case NoImg => None
    case ImgWithoutSrc => Some(MissingSrc)
    case Img(src) => if IsHttpUrl(src) then None else Some(BadImageUrl)
  }

  /** The parents `makedirs` creates are the prefixes of `dir` that end just before one of its '/'
      (after its first character). */
  lemma {:induction false} AncestorsAre(dir: string)
    ensures forall d :: d in Ancestors(dir) <==> exists k :: 1 <= k < |dir| && dir[k] == '/' && d == dir[..k]
    decreases |dir|
  {
    if |dir| > 1 {
      var parent := dir[..|dir| - 1];
      AncestorsAre(parent);
      forall d ensures d in Ancestors(dir) <==> exists k :: 1 <= k < |dir| && dir[k] == '/' && d == dir[..k] {
        if d in Ancestors(parent) {
          var k :| 1 <= k < |parent| && parent[k] == '/' && d == parent[..k];
          assert dir[k] == '/' && d == dir[..k];
        }
        if k :| 1 <= k < |dir| && dir[k] == '/' && d == dir[..k] {
          if k < |parent| {
            assert parent[k] == '/' && d == parent[..k];
          }
        }
      }
    }
  }

  /** The file `save_image` writes for an img tag, if it writes one. */
  function ImageWrite(files: map<string, Content>, imgDir: string, prefix: string, tag: ImgTag): map<string, Content> {
    if tag.Img? && IsHttpUrl(tag.src) then files[ImagePath(imgDir, ImageName(prefix, tag.src)) := ImageData(tag.src)] else files
  }

  /** An image write never touches a path with no more slashes than the image directory, such as the category's JSON file. */
  lemma ImageWriteKeeps(files: map<string, Content>, imgDir: string, prefix: string, tag: ImgTag, path: string)
    requires SlashCount(path) <= SlashCount(imgDir)
    ensures var after := ImageWrite(files, imgDir, prefix, tag);
      && (path in after <==> path in files)
      && (path in files ==> after[path] == files[path])
  {
    if tag.Img? && IsHttpUrl(tag.src) {
      var written := ImagePath(imgDir, ImageName(prefix, tag.src));
      assert SlashCount(written) > SlashCount(path);
      assert written != path;
    }
  }

  /** Both downloads of a listing: the real photo, then the generated one. */
  function Downloads(files: map<string, Content>, imgDir: string, page: DetailPage): map<string, Content> {
    ImageWrite(ImageWrite(files, imgDir, "real", page.realImg), imgDir, "generated", page.generatedImg)
  }

  /** The value `save_image` returns for a tag it did not raise on. */
  function SrcOf(tag: ImgTag): Option<string> {
    if tag.Img? then Some(tag.src) else None
  }

  /** The exception the two downloads of a listing raise, the real photo's first. */
  function DownloadCrash(page: DetailPage): Option<Crash> {
    if ImageCrash(page.realImg).Some? then ImageCrash(page.realImg) else ImageCrash(page.generatedImg)
  }

  /**
   * What becomes of a listing anchor, in the order the listing loop checks:
   * the thumbnail, a directory that already existed, the two downloads,
   * the real photo (`if not main_img`), then the plate block.
   */
  function Gate(hasThumb: bool, dirExisted: bool, page: DetailPage): Visit {
    if !hasThumb then NoThumbnail
    else if dirExisted then DirExisted
    else if DownloadCrash(page).Some? then Crashed(DownloadCrash(page).value)
    else if !page.realImg.Img? then NoRealPhoto
    else if page.plateDiv == PlateDiv(None) then Crashed(MissingPlateHeading)
    else Recorded
  }

  /** A detail page the crawler reads without raising. */
  predicate SafeDetail(page: DetailPage) {
    DownloadCrash(page).None? && page.plateDiv != PlateDiv(None)
  }

  /** A listing is recorded exactly when it has a thumbnail, a new directory, a real photo and a page read
      without raising; it raises exactly when, past the first two checks, a download or the plate block does. */
  lemma GateMeaning(hasThumb: bool, dirExisted: bool, page: DetailPage)
    ensures Gate(hasThumb, dirExisted, page) == Recorded <==> hasThumb && !dirExisted && SafeDetail(page) && page.realImg.Img?
    ensures Gate(hasThumb, dirExisted, page).Crashed? <==>
      hasThumb && !dirExisted && (DownloadCrash(page).Some? || (page.realImg.Img? && page.plateDiv == PlateDiv(None)))
  {
  }

  /** Every detail page the site serves is read without raising. */
  ghost predicate CrashFree(site: Site) {
    forall u :: u in site.details ==> SafeDetail(site.details[u])
  }

  /** The record `save2json` builds for a listing; only read when the listing is recorded, so both photo and plate are there. */
  function RecordOf(href: string, page: DetailPage): Record {
    var plate := if PlateNumber(page.plateDiv).Ok? then PlateNumber(page.plateDiv).value else "";
    Record(AdsLink(href), LinkTextOf(page.heading), if page.realImg.Img? then page.realImg.src else "",
           SrcOf(page.generatedImg), PlaceMetaOf(page.links), plate)
  }

  /** The detail page of a listing. */
  function DetailOf(site: Site, href: string): DetailPage {
    FetchDetail(site, AdsLink(href))
  }

  // ------------------------------------------------- the crawl as a fold

  /** Everything the crawl changes: the directories, the files and the in-memory record map. */
  datatype CrawlState = CrawlState(dirs: set<string>, files: map<string, Content>, data: map<string, Record>)

  /** How a loop over listings or pages ends: the state it leaves and the exception that stopped it, if any. */
  datatype Run = Run(state: CrawlState, crash: Option<Crash>)

  /** How one gallery ends: the state, the outcome and the page the page loop stopped on. */
  datatype GalleryRun = GalleryRun(state: CrawlState, outcome: Outcome, lastPage: nat)

  /** How the whole crawl ends. */
  datatype CrawlRun = CrawlRun(state: CrawlState, outcome: Outcome)

  /** The directories after `make_dir(dir)`: `dir` and its parents, unless something is already at `dir`. */
  function MadeDirs(st: CrawlState, dir: string): set<string> {
    if dir in st.dirs || dir in st.files then st.dirs else st.dirs + {dir} + Ancestors(dir)
  }

  /**
   * One pass of the listing loop (lines 213-237): the visit's fate and the
   * state after it. A new listing directory is created unless the anchor has
   * no thumbnail or its directory existed; the downloads that happen before
   * an exception are kept; a recorded listing updates the map and rewrites
   * the JSON file with all of it.
   */
  function VisitStep(st: CrawlState, site: Site, imgTypeDir: string, jsonFile: string, a: Anchor): (Visit, CrawlState) {
    var imgDir := ListingDir(imgTypeDir, a.href);
    var page := DetailOf(site, a.href);
    var v := Gate(a.hasThumb, imgDir in st.dirs || imgDir in st.files, page);
    if v == NoThumbnail || v == DirExisted then (v, st)
    else
      var dirs := st.dirs + {imgDir} + Ancestors(imgDir);
      if DownloadCrash(page).Some? then (v, CrawlState(dirs, ImageWrite(st.files, imgDir, "real", page.realImg), st.data))
      else if v == Recorded then
        var data := st.data[a.href := RecordOf(a.href, page)];
        (v, CrawlState(dirs, Downloads(st.files, imgDir, page)[jsonFile := JsonRecords(data)], data))
      else (v, CrawlState(dirs, Downloads(st.files, imgDir, page), st.data))
  }

  /** The listing loop over a page's listing anchors, in order, stopping at the first exception. */
  function ListingLoop(st: CrawlState, site: Site, imgTypeDir: string, jsonFile: string, anchors: seq<Anchor>): Run
    decreases |anchors|
  {
    if anchors == [] then Run(st, None)
    else
      var step := VisitStep(st, site, imgTypeDir, jsonFile, anchors[0]);
      if step.0.Crashed? then Run(step.1, Some(step.0.crash))
      else ListingLoop(step.1, site, imgTypeDir, jsonFile, anchors[1..])
  }

  /** One pass of the page loop (lines 202-240): create the category directory, then, when the page shows
      thumbnails, run the listing loop over its listing anchors. */
  function PageEffect(st: CrawlState, site: Site, gallery: string, pageNum: nat): Run {
    var dir := CategoryDir(gallery);
    var st1 := st.(dirs := MadeDirs(st, dir));
    if !HasThumbnails(site, gallery, pageNum) then Run(st1, None)
    else ListingLoop(st1, site, dir, JsonFileOf(dir), ListingAnchors(FetchGallery(site, PageUrl(gallery, pageNum)).anchors))
  }

  /** The page loop of one gallery from page `pageNum` on: it ends at the first page without thumbnails or at an exception. */
  ghost function PageLoop(st: CrawlState, site: Site, gallery: string, pageNum: nat): GalleryRun
    requires pageNum >= 1
    decreases |PagesFrom(site, gallery, pageNum)|
  {
    var r := PageEffect(st, site, gallery, pageNum);
    if !HasThumbnails(site, gallery, pageNum) then GalleryRun(r.state, Finished, pageNum)
    else if r.crash.Some? then GalleryRun(r.state, Aborted(r.crash.value), pageNum)
    else
      PagesFromShrinks(site, gallery, pageNum);
      PageLoop(r.state, site, gallery, pageNum + 1)
  }

  /** The gallery loop (lines 197-243): each gallery from its first page, the record map emptied after each one. */
  ghost function GalleryLoop(st: CrawlState, site: Site, galleries: seq<string>): CrawlRun
    decreases |galleries|
  {
    if galleries == [] then CrawlRun(st, Finished)
    else
      var r := PageLoop(st, site, galleries[0], 1);
      if r.outcome.Aborted? then CrawlRun(r.state, r.outcome)
      else GalleryLoop(r.state.(data := map[]), site, galleries[1..])
  }

  /** A listing the site does not know is served a blank page, which is read without raising. */
  lemma DetailSafe(site: Site, href: string)
    requires CrashFree(site)
    ensures SafeDetail(DetailOf(site, href))
  {
    if AdsLink(href) !in site.details {
      assert DetailOf(site, href) == BlankDetail;
    }
  }

  /** On a site whose detail pages all read cleanly, the listing loop never raises. */
  lemma {:induction false} ListingLoopNoCrash(st: CrawlState, site: Site, imgTypeDir: string, jsonFile: string, anchors: seq<Anchor>)
    requires CrashFree(site)
    ensures ListingLoop(st, site, imgTypeDir, jsonFile, anchors).crash.None?
    decreases |anchors|
  {
    if anchors != [] {
      DetailSafe(site, anchors[0].href);
      var step := VisitStep(st, site, imgTypeDir, jsonFile, anchors[0]);
      ListingLoopNoCrash(step.1, site, imgTypeDir, jsonFile, anchors[1..]);
    }
  }

  /** An exception in the listing loop comes from the detail page of a thumbnail anchor it visited. */
  lemma {:induction false} ListingLoopCrashCause(st: CrawlState, site: Site, imgTypeDir: string, jsonFile: string, anchors: seq<Anchor>)
    requires ListingLoop(st, site, imgTypeDir, jsonFile, anchors).crash.Some?
    ensures exists k :: 0 <= k < |anchors| && anchors[k].hasThumb && !SafeDetail(DetailOf(site, anchors[k].href))
    decreases |anchors|
  {
    var step := VisitStep(st, site, imgTypeDir, jsonFile, anchors[0]);
    if step.0.Crashed? {
      assert anchors[0].hasThumb && !SafeDetail(DetailOf(site, anchors[0].href));
    } else {
      ListingLoopCrashCause(step.1, site, imgTypeDir, jsonFile, anchors[1..]);
      var k :| 0 <= k < |anchors[1..]| && anchors[1..][k].hasThumb && !SafeDetail(DetailOf(site, anchors[1..][k].href));
      assert anchors[k + 1] == anchors[1..][k];
    }
  }

  /** On a site whose detail pages all read cleanly, a gallery always runs to its first page without thumbnails. */
  lemma {:induction false} PageLoopFinishes(st: CrawlState, site: Site, gallery: string, pageNum: nat)
    requires CrashFree(site) && pageNum >= 1
    ensures PageLoop(st, site, gallery, pageNum).outcome == Finished
    ensures PageLoop(st, site, gallery, pageNum).lastPage == FirstEmptyPage(site, gallery, pageNum)
    decreases |PagesFrom(site, gallery, pageNum)|
  {
    if HasThumbnails(site, gallery, pageNum) {
      var dir := CategoryDir(gallery);
      var st1 := st.(dirs := MadeDirs(st, dir));
      ListingLoopNoCrash(st1, site, dir, JsonFileOf(dir), ListingAnchors(FetchGallery(site, PageUrl(gallery, pageNum)).anchors));
      PagesFromShrinks(site, gallery, pageNum);
      PageLoopFinishes(PageEffect(st, site, gallery, pageNum).state, site, gallery, pageNum + 1);
    }
  }

  /** A gallery that aborts does so on the page it stopped at, because of the detail page of one of that
      page's thumbnail listings; that page still shows thumbnails. */
  lemma {:induction false} PageLoopAbortCause(st: CrawlState, site: Site, gallery: string, pageNum: nat)
    requires pageNum >= 1
    requires PageLoop(st, site, gallery, pageNum).outcome.Aborted?
    ensures var n := PageLoop(st, site, gallery, pageNum).lastPage;
      && HasThumbnails(site, gallery, n)
      && exists a :: a in FetchGallery(site, PageUrl(gallery, n)).anchors && a.hasThumb && IsListingHref(a.href)
                     && !SafeDetail(DetailOf(site, a.href))
    decreases |PagesFrom(site, gallery, pageNum)|
  {
    var r := PageEffect(st, site, gallery, pageNum);
    if r.crash.Some? {
      var dir := CategoryDir(gallery);
      var anchors := FetchGallery(site, PageUrl(gallery, pageNum)).anchors;
      var links := ListingAnchors(anchors);
      ListingLoopCrashCause(st.(dirs := MadeDirs(st, dir)), site, dir, JsonFileOf(dir), links);
      ListingAnchorsMembers(anchors);
      var k :| 0 <= k < |links| && links[k].hasThumb && !SafeDetail(DetailOf(site, links[k].href));
      assert links[k] in links;
    } else {
      PagesFromShrinks(site, gallery, pageNum);
      PageLoopAbortCause(r.state, site, gallery, pageNum + 1);
    }
  }

  /** On a site whose detail pages all read cleanly, the crawl finishes. */
  lemma {:induction false} GalleryLoopFinishes(st: CrawlState, site: Site, galleries: seq<string>)
    requires CrashFree(site)
    ensures GalleryLoop(st, site, galleries).outcome == Finished
    decreases |galleries|
  {
    if galleries != [] {
      PageLoopFinishes(st, site, galleries[0], 1);
      GalleryLoopFinishes(PageLoop(st, site, galleries[0], 1).state.(data := map[]), site, galleries[1..]);
    }
  }

  /** The local filesystem: its directories and, for each file, what was last written to it. */
  class FileSystem {
    var dirs: set<string>
    var files: map<string, Content>

    constructor (dirs: set<string>, files: map<string, Content>)
      ensures this.dirs == dirs && this.files == files
    {
      this.dirs := dirs;
      this.files := files;
    }

    /** Python's `os.path.exists`. */
    predicate Exists(path: string)
      reads this
    {
      path in dirs || path in files
    }
  }

  class CarParser {
    const baseUrl: string := BaseUrl
    var jsonData: map<string, Record>

    ghost predicate Valid()
      reads this
    {
      RecordsOk(jsonData)
    }

    constructor ()
      ensures Valid() && jsonData == map[]
    {
      jsonData := map[];
    }

    /** What this crawler and the filesystem hold together. */
    function State(fs: FileSystem): CrawlState
      reads this, fs
    {
      CrawlState(fs.dirs, fs.files, jsonData)
    }

    /** Creates `dir` (and its parents) unless something exists there; says whether it did. */
    static method MakeDir(fs: FileSystem, dir: string) returns (created: bool)
      modifies fs
      ensures created <==> !old(fs.Exists(dir))
      ensures fs.dirs == if created then old(fs.dirs) + {dir} + Ancestors(dir) else old(fs.dirs)
      ensures fs.files == old(fs.files)
      ensures fs.Exists(dir)
    {
      if !fs.Exists(dir) {
        fs.dirs := fs.dirs + {dir} + Ancestors(dir);
        return true;
      }
      return false;
    }

    /** Downloads the img of the requested class into `imgDir` as `<prefix>_<last part of src>`; returns its src. */
    method SaveImage(fs: FileSystem, imgDir: string, namePrefix: string, tag: ImgTag) returns (r: Result<Option<string>, Crash>)
      modifies fs
      ensures fs.dirs == old(fs.dirs)
      ensures fs.files == ImageWrite(old(fs.files), imgDir, namePrefix, tag)
      ensures tag == NoImg ==> r == Ok(None) && fs.files == old(fs.files)
      ensures r.Err? <==> ImageCrash(tag).Some?
      ensures r.Err? ==> r.error == ImageCrash(tag).value && fs.files == old(fs.files)
      ensures r.Ok? && tag.Img? ==> r == Ok(Some(tag.src)) && tag.src != ""
      ensures r.Ok? && tag.Img? ==> fs.files == old(fs.files)[ImagePath(imgDir, ImageName(namePrefix, tag.src)) := ImageData(tag.src)]
    {
      if tag == NoImg {
        return Ok(None);
      }
      if tag == ImgWithoutSrc {
        return Err(MissingSrc);
      }
      var imgUrl := tag.src;
      var imgName := ImageName(namePrefix, imgUrl);
      if !IsHttpUrl(imgUrl) {
        return Err(BadImageUrl);
      }
      fs.files := fs.files[ImagePath(imgDir, imgName) := ImageData(imgUrl)];
      return Ok(Some(imgUrl));
    }

    /** The caption: the stripped caption-link texts of the heading, joined by spaces. */
    static method GetLinkText(page: DetailPage) returns (linkText: string)
      ensures linkText == LinkTextOf(page.heading)
    {
      var texts: seq<string> := [];
      if page.heading.Some? {
        var links := page.heading.value;
        for i := 0 to |links|
          invariant texts == CatalogTexts(links[..i])
        {
          assert links[..i + 1] == links[..i] + [links[i]];
          CatalogTextsSnoc(links[..i], links[i]);
          if IsCatalogHref(links[i].href) {
            texts := texts + [Strip(links[i].text)];
          }
        }
        assert links[..|links|] == links;
      }
      linkText := Join(texts, ' ');
    }

    /** The place tag: the text of the last plain `<small>` inside a location link. */
    static method GetPlaceMeta(page: DetailPage) returns (placeMeta: PlaceMeta)
      ensures placeMeta == PlaceMetaOf(page.links)
    {
      var links := page.links;
      placeMeta := NoPlaceMeta;
      for i := 0 to |links|
        invariant placeMeta == LastPlainSmall(GallerySmalls(links[..i]))
      {
        var link := links[i];
        assert links[..i + 1] == links[..i] + [link];
        GallerySmallsSnoc(links[..i], link);
        if IsGalleryHref(link.href) {
          var before := GallerySmalls(links[..i]);
          assert before + link.smalls[..0] == before;
          for j := 0 to |link.smalls|
            invariant placeMeta == LastPlainSmall(before + link.smalls[..j])
          {
            assert before + link.smalls[..j + 1] == (before + link.smalls[..j]) + [link.smalls[j]];
            LastPlainSmallSnoc(before + link.smalls[..j], link.smalls[j]);
            if !link.smalls[j].hasChildTags {
              placeMeta := PlaceText(link.smalls[j].text);
            }
          }
          assert link.smalls[..|link.smalls|] == link.smalls;
        } else {
          assert GallerySmalls(links[..i]) + [] == GallerySmalls(links[..i]);
        }
      }
      assert links[..|links|] == links;
    }

    /** Adds or replaces the record of `href`; a plate block without heading raises before anything changes. */
    method Save2Json(page: DetailPage, href: string, adsLink: string, mainImg: string, genImg: Option<string>)
      returns (r: Result<(), Crash>)
      modifies this
      ensures r.Err? <==> page.plateDiv == PlateDiv(None)
      ensures r.Err? ==> r.error == MissingPlateHeading && jsonData == old(jsonData)
      ensures r.Ok? ==> jsonData == old(jsonData)[href := Record(adsLink, LinkTextOf(page.heading), mainImg, genImg,
                                                                 PlaceMetaOf(page.links), PlateNumber(page.plateDiv).value)]
    {
      var linkText := GetLinkText(page);
      var placeMeta := GetPlaceMeta(page);
      var plateNumber := PlateNumber(page.plateDiv);
      if plateNumber.Err? {
        return Err(plateNumber.error);
      }
      jsonData := jsonData[href := Record(adsLink, linkText, mainImg, genImg, placeMeta, plateNumber.value)];
      return Ok(());
    }

    /** Overwrites the category's JSON file with the whole record map. */
    method DumpJson(fs: FileSystem, jsonFile: string)
      modifies fs
      ensures fs.files == old(fs.files)[jsonFile := JsonRecords(jsonData)]
      ensures fs.dirs == old(fs.dirs)
    {
      fs.files := fs.files[jsonFile := JsonRecords(jsonData)];
    }

    /** Both `save_image` calls of a listing: the real photo, then the generated one; an img without src raises. */
    method DownloadImages(fs: FileSystem, imgDir: string, jsonFile: string, page: DetailPage)
      returns (r: Result<(Option<string>, Option<string>), Crash>)
      requires SlashCount(jsonFile) <= SlashCount(imgDir)
      modifies fs
      ensures WritesOk(old(fs.files), fs.files) && fs.dirs == old(fs.dirs)
      ensures r.Err? <==> DownloadCrash(page).Some?
      ensures r.Err? ==> r.error == DownloadCrash(page).value && fs.files == ImageWrite(old(fs.files), imgDir, "real", page.realImg)
      ensures r.Ok? ==> r.value == (SrcOf(page.realImg), SrcOf(page.generatedImg)) && fs.files == Downloads(old(fs.files), imgDir, page)
      ensures Untouched(old(fs.files), fs.files, jsonFile)
    {
      ghost var files0 := fs.files;
      ImageWriteKeeps(files0, imgDir, "real", page.realImg, jsonFile);
      var mainImg := SaveImage(fs, imgDir, "real", page.realImg);
      if page.realImg.Img? {
        WritesOkImage(files0, files0, ImagePath(imgDir, ImageName("real", page.realImg.src)), page.realImg.src);
      }
      if mainImg.Err? {
        return Err(mainImg.error);
      }
      ghost var files1 := fs.files;
      ImageWriteKeeps(files1, imgDir, "generated", page.generatedImg, jsonFile);
      var generatedImg := SaveImage(fs, imgDir, "generated", page.generatedImg);
      if page.generatedImg.Img? {
        WritesOkImage(files0, files1, ImagePath(imgDir, ImageName("generated", page.generatedImg.src)), page.generatedImg.src);
      }
      if generatedImg.Err? {
        return Err(generatedImg.error);
      }
      return Ok((mainImg.value, generatedImg.value));
    }

    /** A listing whose directory was just created: download both images, then record it if it has a real photo. */
    method SaveListing(fs: FileSystem, imgDir: string, jsonFile: string, href: string, page: DetailPage)
      returns (v: Visit)
      requires Valid() && IsListingHref(href)
      requires SlashCount(jsonFile) <= SlashCount(imgDir)
      modifies this, fs
      ensures Valid()
      ensures WritesOk(old(fs.files), fs.files) && fs.dirs == old(fs.dirs)
      ensures v == Gate(true, false, page)
      ensures DownloadCrash(page).Some? ==> fs.files == ImageWrite(old(fs.files), imgDir, "real", page.realImg)
      ensures DownloadCrash(page).None? && v != Recorded ==> fs.files == Downloads(old(fs.files), imgDir, page)
      ensures v == Recorded ==> fs.files == Downloads(old(fs.files), imgDir, page)[jsonFile := JsonRecords(jsonData)]
      ensures v != Recorded ==> Untouched(old(fs.files), fs.files, jsonFile)
      ensures v != Recorded ==> jsonData == old(jsonData)
      ensures v == Recorded ==> jsonData == old(jsonData)[href := RecordOf(href, page)]
    {
      var images := DownloadImages(fs, imgDir, jsonFile, page);
      if images.Err? {
        return Crashed(images.error);
      }
      var (mainImg, generatedImg) := images.value;
      if mainImg.None? || mainImg.value == "" {
        return NoRealPhoto;
      }
      var saved := Save2Json(page, href, baseUrl + href, mainImg.value, generatedImg);
      if saved.Err? {
        return Crashed(saved.error);
      }
      RecordsOkUpdate(old(jsonData), href, jsonData[href]);
      WritesOkJson(old(fs.files), fs.files, jsonFile, jsonData);
      DumpJson(fs, jsonFile);
      return Recorded;
    }

    /** One anchor of a gallery page: the body of the listing loop. */
    method VisitListing(fs: FileSystem, site: Site, imgTypeDir: string, jsonFile: string, imgLink: Anchor)
      returns (v: Visit)
      requires Valid() && IsListingHref(imgLink.href)
      requires imgTypeDir != [] && jsonFile == JsonFileOf(imgTypeDir)
      modifies this, fs
      ensures Valid()
      ensures WritesOk(old(fs.files), fs.files) && old(fs.dirs) <= fs.dirs
      ensures v == Gate(imgLink.hasThumb, old(fs.Exists(ListingDir(imgTypeDir, imgLink.href))), DetailOf(site, imgLink.href))
      ensures v == NoThumbnail || v == DirExisted ==> fs.dirs == old(fs.dirs) && fs.files == old(fs.files)
      ensures v != NoThumbnail && v != DirExisted ==>
        fs.dirs == old(fs.dirs) + {ListingDir(imgTypeDir, imgLink.href)} + Ancestors(ListingDir(imgTypeDir, imgLink.href))
      ensures v != Recorded ==> Untouched(old(fs.files), fs.files, jsonFile)
      ensures v != Recorded ==> jsonData == old(jsonData)
      ensures v == Recorded ==> Synced(fs.files, jsonFile, jsonData)
      ensures v == Recorded ==> jsonData == old(jsonData)[imgLink.href := RecordOf(imgLink.href, DetailOf(site, imgLink.href))]
      ensures forall h :: Changed(old(jsonData), jsonData, h) ==> h == imgLink.href && imgLink.hasThumb
      ensures (v, State(fs)) == VisitStep(old(State(fs)), site, imgTypeDir, jsonFile, imgLink)
    {
      if !imgLink.hasThumb {
        return NoThumbnail;
      }
      var imgUrl := baseUrl + imgLink.href;
      var imgDir := ListingDir(imgTypeDir, imgLink.href);
      var imgSoup := FetchDetail(site, imgUrl);
      assert imgSoup == DetailOf(site, imgLink.href);
      JsonFileAboveListing(imgTypeDir, imgLink.href);
      ghost var data0 := jsonData;
      var newDir := MakeDir(fs, imgDir);
      assert jsonData == data0;
      if !newDir {
        return DirExisted;
      }
      v := SaveListing(fs, imgDir, jsonFile, imgLink.href, imgSoup);
    }

    /** The listing loop of one gallery page: visits its listing anchors in order until one raises. */
    method VisitPage(fs: FileSystem, site: Site, imgTypeDir: string, jsonFile: string, imgLinks: seq<Anchor>)
      returns (crash: Option<Crash>)
      requires Valid() && imgTypeDir != [] && jsonFile == JsonFileOf(imgTypeDir)
      requires forall k :: 0 <= k < |imgLinks| ==> IsListingHref(imgLinks[k].href)
      modifies this, fs
      ensures Valid()
      ensures WritesOk(old(fs.files), fs.files) && old(fs.dirs) <= fs.dirs
      ensures Synced(fs.files, jsonFile, jsonData) || (Untouched(old(fs.files), fs.files, jsonFile) && jsonData == old(jsonData))
      ensures old(jsonData).Keys <= jsonData.Keys
      ensures forall h :: Changed(old(jsonData), jsonData, h) ==> h in ThumbHrefs(imgLinks)
      ensures ListingLoop(old(State(fs)), site, imgTypeDir, jsonFile, imgLinks) == Run(State(fs), crash)
    {
      crash := None;
      for i := 0 to |imgLinks|
        invariant Valid()
        invariant WritesOk(old(fs.files), fs.files) && old(fs.dirs) <= fs.dirs
        invariant Synced(fs.files, jsonFile, jsonData) || (Untouched(old(fs.files), fs.files, jsonFile) && jsonData == old(jsonData))
        invariant old(jsonData).Keys <= jsonData.Keys
        invariant forall h :: Changed(old(jsonData), jsonData, h) ==> h in ThumbHrefs(imgLinks)
        invariant ListingLoop(old(State(fs)), site, imgTypeDir, jsonFile, imgLinks)
               == ListingLoop(State(fs), site, imgTypeDir, jsonFile, imgLinks[i..])
      {
        ghost var data0, files0 := jsonData, fs.files;
        assert imgLinks[i..][0] == imgLinks[i] && imgLinks[i..][1..] == imgLinks[i + 1..];
        var v := VisitListing(fs, site, imgTypeDir, jsonFile, imgLinks[i]);
        WritesOkTrans(old(fs.files), files0, fs.files);
        forall h | Changed(old(jsonData), jsonData, h)
          ensures h in ThumbHrefs(imgLinks)
        {
          ChangedTrans(old(jsonData), data0, jsonData, h);
          if Changed(data0, jsonData, h) {
            assert imgLinks[i] in imgLinks;
          }
        }
        if v.Crashed? {
          return Some(v.crash);
        }
      }
    }

    /** One page of a gallery: create the category directory, fetch the page and, when it shows
        thumbnails, visit its listings. `more` is false exactly when the page is the end of the gallery. */
    method ParsePage(fs: FileSystem, site: Site, galleryLink: string, pageNum: nat) returns (more: bool, crash: Option<Crash>)
      requires Valid() && pageNum >= 1
      modifies this, fs
      ensures Valid()
      ensures more == HasThumbnails(site, galleryLink, pageNum)
      ensures !more ==> crash.None? && jsonData == old(jsonData) && fs.files == old(fs.files)
      ensures WritesOk(old(fs.files), fs.files) && old(fs.dirs) <= fs.dirs
      ensures fs.Exists(CategoryDir(galleryLink))
      ensures Synced(fs.files, JsonFileOf(CategoryDir(galleryLink)), jsonData)
              || (Untouched(old(fs.files), fs.files, JsonFileOf(CategoryDir(galleryLink))) && jsonData == old(jsonData))
      ensures old(jsonData).Keys <= jsonData.Keys
      ensures forall h :: Changed(old(jsonData), jsonData, h) ==> ListedOn(site, PageUrl(galleryLink, pageNum), h)
      ensures PageEffect(old(State(fs)), site, galleryLink, pageNum) == Run(State(fs), crash)
    {
      var pageUrl := PageUrl(galleryLink, pageNum);
      var imgTypeDir := CategoryDir(galleryLink);
      var created := MakeDir(fs, imgTypeDir);
      var jsonFile := JsonFileOf(imgTypeDir);
      var pageSoup := FetchGallery(site, pageUrl);
      var imgLinks := ListingAnchors(pageSoup.anchors);
      ListingAnchorsMembers(pageSoup.anchors);
      if !pageSoup.hasThumbnail {
        return false, None;
      }
      ghost var files1, dirs1 := fs.files, fs.dirs;
      assert imgTypeDir in dirs1 || imgTypeDir in files1;
      crash := VisitPage(fs, site, imgTypeDir, jsonFile, imgLinks);
      more := true;
      forall h | Changed(old(jsonData), jsonData, h)
        ensures ListedOn(site, pageUrl, h)
      {
        var a :| a in imgLinks && a.href == h && a.hasThumb;
        assert a in pageSoup.anchors;
      }
    }

    /** One gallery: its pages in order from the first, until a page without thumbnails or a crash.
        `lastPage` is the page the loop stopped on. */
    method ParseGallery(fs: FileSystem, site: Site, galleryLink: string) returns (outcome: Outcome, ghost lastPage: nat)
      requires Valid()
      modifies this, fs
      ensures Valid()
      ensures WritesOk(old(fs.files), fs.files) && old(fs.dirs) <= fs.dirs
      ensures fs.Exists(CategoryDir(galleryLink))
      ensures 1 <= lastPage <= FirstEmptyPage(site, galleryLink, 1)
      ensures outcome.Finished? <==> lastPage == FirstEmptyPage(site, galleryLink, 1)
      ensures Synced(fs.files, JsonFileOf(CategoryDir(galleryLink)), jsonData)
              || (Untouched(old(fs.files), fs.files, JsonFileOf(CategoryDir(galleryLink))) && jsonData == old(jsonData))
      ensures old(jsonData).Keys <= jsonData.Keys
      ensures forall h :: Changed(old(jsonData), jsonData, h) ==>
        exists n :: 1 <= n <= lastPage && ListedOn(site, PageUrl(galleryLink, n), h)
      ensures PageLoop(old(State(fs)), site, galleryLink, 1) == GalleryRun(State(fs), outcome, lastPage)
    {
      ghost var jsonFile := JsonFileOf(CategoryDir(galleryLink));
      var pageNum := 1;
      while true
        invariant Valid() && pageNum >= 1
        invariant pageNum <= FirstEmptyPage(site, galleryLink, 1)
        invariant WritesOk(old(fs.files), fs.files) && old(fs.dirs) <= fs.dirs
        invariant pageNum > 1 ==> fs.Exists(CategoryDir(galleryLink))
        invariant Synced(fs.files, jsonFile, jsonData)
                  || (Untouched(old(fs.files), fs.files, jsonFile) && jsonData == old(jsonData))
        invariant old(jsonData).Keys <= jsonData.Keys
        invariant forall h :: Changed(old(jsonData), jsonData, h) ==>
          exists n :: 1 <= n < pageNum && ListedOn(site, PageUrl(galleryLink, n), h)
        invariant PageLoop(old(State(fs)), site, galleryLink, 1) == PageLoop(State(fs), site, galleryLink, pageNum)
        decreases |PagesFrom(site, galleryLink, pageNum)|
      {
        ghost var data0, files0 := jsonData, fs.files;
        var more, crash := ParsePage(fs, site, galleryLink, pageNum);
        WritesOkTrans(old(fs.files), files0, fs.files);
        FirstEmptyPageStep(site, galleryLink, pageNum);
        if !more {
          break;
        }
        forall h | Changed(old(jsonData), jsonData, h)
          ensures exists n :: 1 <= n < pageNum + 1 && ListedOn(site, PageUrl(galleryLink, n), h)
        {
          ChangedTrans(old(jsonData), data0, jsonData, h);
        }
        if crash.Some? {
          outcome, lastPage := Aborted(crash.value), pageNum;
          return;
        }
        PagesFromShrinks(site, galleryLink, pageNum);
        pageNum := pageNum + 1;
      }
      outcome, lastPage := Finished, pageNum;
    }

    /** The crawl: every gallery in order, emptying the record map after each one.
        `lastPages` holds the page each gallery stopped on. */
    method Parse(fs: FileSystem, site: Site, galleryLinks: seq<string>) returns (outcome: Outcome, ghost lastPages: seq<nat>)
      requires Valid()
      modifies this, fs
      ensures Valid()
      ensures WritesOk(old(fs.files), fs.files) && old(fs.dirs) <= fs.dirs
      ensures |lastPages| <= |galleryLinks| && (outcome.Finished? ==> |lastPages| == |galleryLinks|)
      ensures outcome.Finished? ==> lastPages == GalleryEnds(site, galleryLinks)
      ensures outcome.Finished? && galleryLinks != [] ==> jsonData == map[]
      ensures galleryLinks == [] ==> jsonData == old(jsonData)
      ensures GalleryLoop(old(State(fs)), site, galleryLinks) == CrawlRun(State(fs), outcome)
    {
      lastPages := [];
      for g := 0 to |galleryLinks|
        invariant Valid()
        invariant WritesOk(old(fs.files), fs.files) && old(fs.dirs) <= fs.dirs
        invariant lastPages == GalleryEnds(site, galleryLinks[..g])
        invariant g > 0 ==> jsonData == map[]
        invariant g == 0 ==> jsonData == old(jsonData)
        invariant GalleryLoop(old(State(fs)), site, galleryLinks) == GalleryLoop(State(fs), site, galleryLinks[g..])
      {
        ghost var files0 := fs.files;
        assert galleryLinks[g..][0] == galleryLinks[g] && galleryLinks[g..][1..] == galleryLinks[g + 1..];
        var galleryOutcome, lastPage := ParseGallery(fs, site, galleryLinks[g]);
        WritesOkTrans(old(fs.files), files0, fs.files);
        GalleryEndsSnoc(site, galleryLinks, g);
        if galleryOutcome.Aborted? {
          return galleryOutcome, lastPages + [lastPage];
        }
        lastPages := lastPages + [lastPage];
        jsonData := map[];
      }
      assert galleryLinks[..|galleryLinks|] == galleryLinks;
      outcome := Finished;
    }
  }
}
