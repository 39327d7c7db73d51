# Car-plate dataset crawler, modelled in Dafny

`parse_car_dataset.py` crawls the Albanian plate galleries of platesmania.com.
It takes a list of gallery links and walks the pages of each gallery
(`&start=<n-1>` for page n) until it reaches a page that shows no thumbnail.
On each page it considers every anchor whose href matches
`^/al/nomer(?!.*#).*$`. For an anchor that wraps a thumbnail, it does the
following:

- opens the listing at `https://platesmania.com<href>`;
- creates `images/al-ctype-<category>/<href with '/' turned into '_'>` and
  skips the listing when that directory already existed;
- downloads the real photo and the generated photo into that directory as
  `real_<name>` and `generated_<name>`, where `<name>` is the last part of
  the image URL;
- when the real photo was found, stores a six-field record (ads link,
  caption, main image, generated image, place, plate number) under the
  href in an in-memory map;
- rewrites `images/al-ctype-<category>-meta.json` with the whole map.

The map is emptied after each gallery.

The model is in five modules:

- `Wrappers`: `Option` and `Result`.
- `Text`: the Python string builtins the crawler relies on, each with its
  characterisation and round trips:
  - `str.strip` and `str.isspace`;
  - `str.split` and `str.join` on one character;
  - `str(n)`;
  - `str.replace` on one character.
- `Names`: every name and URL the crawler derives from a link, plus the
  three href patterns, written out as they match.
- `Pages`: the fetched HTML reduced to the values the crawler reads from it,
  and the field extractors as functions:
  - the site is a finite set of known pages, and any other URL serves a
    blank page;
  - pagination is specified by the first page without thumbnails.
- `Crawl`: the reference definition of the crawl as a fold over a
  `CrawlState` (directories, files, record map):
  - `VisitStep` is one pass of the listing loop;
  - `ListingLoop` folds it over a page's listing anchors, stopping at the
    first exception;
  - `PageEffect` is one pass of the page loop;
  - `PageLoop` runs a gallery's pages from the first to the first page
    without thumbnails;
  - `GalleryLoop` runs the galleries in order and empties the map after
    each one.
- `Crawl`: the state machine as imperative code, each loop proved equal to
  its fold:
  - a `FileSystem` class holds the directory set and a map from file path to
    what was last written there;
  - a `CarParser` class holds the record map;
  - its methods follow `make_dir`, `save_image`, `get_link_text`,
    `get_place_meta`, `save2json` and the three loops of `parse`;
  - the loop bodies are pulled out as `VisitListing`, `ParsePage` and
    `ParseGallery`.

Three exceptions can escape the crawl because of what a page contains. The
model carries each as a `Crash` outcome:

- the `KeyError` of an image tag without `src`;
- the `MissingSchema` or `InvalidSchema` that `requests.get` raises for a `src` without an
  `http://` or `https://` scheme, such as an empty one; it is raised before
  the file is opened, so nothing is written;
- the `AttributeError` of a plate block without its `h1`.

Since a downloaded `src` always has a scheme, it is never empty, and the
`if not main_img` test skips a listing only when it has no real-photo img.

Where the code and its description differ, the model follows the code:

- `get_place_meta` starts from an empty list, not an empty string, and
  returns it when no plain `<small>` exists (`NoPlaceMeta`);
- the "already crawled" test is the existence of the listing directory, not
  a lookup in the record map.

`Names.ListingIdCollides` shows a consequence of that test. Two hrefs that
differ only by `_` against `/` share one directory, so the second of them is
skipped as already crawled.

## Model

| member | source | states |
|---|---|---|
| Text.Strip | parse_car_dataset.py:126 | the result is `s` with its leading and trailing whitespace cut away, and is stripped itself |
| Text.StripOfUnique | parse_car_dataset.py:126 | the strip characterisation admits exactly one result, so it pins `strip()` down |
| Text.StripIdempotent | parse_car_dataset.py:126 | stripping a stripped caption word changes nothing |
| Text.SplitOn | parse_car_dataset.py:106 | `split(c)` yields at least one piece, and no piece contains the separator |
| Text.Join | parse_car_dataset.py:127 | `sep.join(parts)`: the parts with one separator between neighbours; `JoinSplit` and `SplitJoin` make it the inverse of `SplitOn` |
| Text.JoinSplit | parse_car_dataset.py:106 | joining the pieces of a split with the separator gives the string back, so `Join` undoes `SplitOn` |
| Text.SplitJoin | parse_car_dataset.py:127 | splitting a join of separator-free words gives the words back |
| Text.SplitAfterPiece | parse_car_dataset.py:106 | a separator-free piece followed by the separator is peeled off as the first piece |
| Text.SplitNoSeparator | parse_car_dataset.py:204 | a string without the separator splits into itself alone |
| Text.LastPiece | parse_car_dataset.py:106 | `split(c)[-1]` is the text after the last `c`, or all of `s` when `c` is absent |
| Text.AfterLastShape | parse_car_dataset.py:204 | `AfterLast(s, c)`, i.e. `split(c)[-1]`, is a separator-free suffix, preceded by `c` when `c` occurs and equal to `s` when it does not |
| Text.AfterLast | parse_car_dataset.py:106 | `split(c)[-1]`, characterised by `LastPiece` and `AfterLastShape` |
| Text.Decimal | parse_car_dataset.py:202 | `str(n)` is canonical decimal text |
| Text.DecimalRoundTrip | parse_car_dataset.py:202 | reading back the decimal of a page offset gives the offset |
| Text.ParseDecimalRoundTrip | parse_car_dataset.py:202 | any text that reads as a number is that number's decimal |
| Text.ReplaceChar | parse_car_dataset.py:217 | `replace(a, b)` keeps the length and turns exactly the `a` characters into `b` |
| Names.PageUrl | parse_car_dataset.py:202 | the page URL: the gallery link for page 1, otherwise the link, `&start=` and the decimal of the page before; `PageAt` is its inverse |
| Names.PageAt | parse_car_dataset.py:202 | a URL that names a page of the gallery names page 1 or later |
| Names.PageAtPageUrl | parse_car_dataset.py:202 | `PageUrl` gives the gallery link itself for page 1 and the link plus `&start=` and the decimal of n-1 otherwise, since every page URL reads back as its page number |
| Names.PageUrlPageAt | parse_car_dataset.py:202 | every URL that reads as a page of the gallery is that page's URL |
| Names.PageUrlInjective | parse_car_dataset.py:202 | two different pages of one gallery never share a URL |
| Names.CategoryDir | parse_car_dataset.py:204 | the category directory name is never empty |
| Names.CategoryDirShape | parse_car_dataset.py:204 | the directory is `images/al-ctype-` followed by the text after the last `=` of the link, or by the whole link when it has no `=` |
| Names.JsonFileOf | parse_car_dataset.py:206 | the category JSON file: the directory name followed by `-meta.json` (see `JsonFileBeside`) |
| Names.JsonFileBeside | parse_car_dataset.py:206 | `JsonFileOf` is the directory name followed by `-meta.json`, at the same depth |
| Names.ListingId | parse_car_dataset.py:217 | the id has the href's length and no `/`; every `/` became `_`, and every other character is kept |
| Names.ListingIdRestores | parse_car_dataset.py:217 | an href without `_` can be recovered from its id |
| Names.ListingIdCollides | parse_car_dataset.py:217-218 | two different hrefs that differ only by `_` against `/` get the same id, and so the same directory |
| Names.AdsLink | parse_car_dataset.py:216 | the ads link: the base URL followed by the href (see `AdsLinkShape`) |
| Names.PathJoin | parse_car_dataset.py:218 | `os.path.join` keeps an absolute second part; otherwise it puts exactly one `/` between the parts unless the first is empty or already ends in `/` |
| Names.ListingDir | parse_car_dataset.py:218 | the listing directory: the category directory joined with the listing id (see `ListingDirIsChild`, `ListingDirDepth`) |
| Names.ListingDirIsChild | parse_car_dataset.py:218 | `ListingDir` lies inside its category directory, and its last component is the listing id |
| Names.ListingDirDepth | parse_car_dataset.py:218 | a listing directory is exactly one level below its category directory |
| Names.JsonFileAboveListing | parse_car_dataset.py:206-218 | the category JSON file is never deeper than a listing directory |
| Names.ImageName | parse_car_dataset.py:106 | the image name is the prefix, `_`, then the text after the last `/` of the source URL |
| Names.AdsLinkShape | parse_car_dataset.py:216 | `AdsLink` is the base URL followed by the href, unchanged |
| Names.ImagePath | parse_car_dataset.py:110 | the image file is one level below its directory |
| Names.ImageIsNotJsonFile | parse_car_dataset.py:106-110 | no image a listing saves can overwrite its category's JSON file |
| Names.IsListingHref | parse_car_dataset.py:194 | `re.search` of `^/al/nomer(?!.*#).*$`, written out with the newline rules of `.` and `$` (see `ListingHrefMeaning`) |
| Names.IsCatalogHref | parse_car_dataset.py:121 | `re.search` of `^/catalog/`: the href starts with `/catalog/` |
| Names.IsGalleryHref | parse_car_dataset.py:136 | `re.search` of `^/gallery.php?`: `/gallery`, any character but a line break, then `ph` (see `GalleryHrefMeaning`) |
| Names.IsHttpUrl | parse_car_dataset.py:108 | a `src` that `requests.get` sends: an `http://` or `https://` scheme followed by something |
| Names.ListingTailMeaning | parse_car_dataset.py:194 | the look-ahead and `.*$` together mean no `#`, and no line break before the last character |
| Names.ListingHrefMeaning | parse_car_dataset.py:194 | `IsListingHref` holds iff the href starts with `/al/nomer`, holds no `#`, and has no line break except a final one |
| Names.ListingHrefOneLine | parse_car_dataset.py:194 | on a one-line href, the pattern means "starts with `/al/nomer` and contains no `#`" |
| Names.GalleryHrefMeaning | parse_car_dataset.py:136 | `IsGalleryHref` accepts every `/gallery.php` link and, because the dot is unescaped, any character but a line break in its place; every match starts with `/gallery` |
| Pages.FetchGallery | parse_car_dataset.py:207 | a URL the site does not know serves a page without thumbnails |
| Pages.FetchDetail | parse_car_dataset.py:220 | a listing the site does not know has no real photo |
| Pages.ListingAnchors | parse_car_dataset.py:209 | the filtered anchors are never more than the page holds |
| Pages.ListingAnchorsMembers | parse_car_dataset.py:194-209 | an anchor is kept iff it is on the page and its href matches the listing pattern |
| Pages.ListingAnchorsAppend | parse_car_dataset.py:209 | filtering works piecewise on a concatenation, so document order is kept |
| Pages.ListingAnchorsOne | parse_car_dataset.py:194-209 | a single anchor survives exactly when its href matches |
| Pages.ListingAnchorsCount | parse_car_dataset.py:209 | a matching anchor occurs in the filtered list as many times as on the page, so duplicates are kept |
| Pages.CatalogTexts | parse_car_dataset.py:124-126 | there are never more caption words than links |
| Pages.CatalogTextsStripped | parse_car_dataset.py:126 | every caption word is stripped |
| Pages.CatalogTextsCount | parse_car_dataset.py:124-126 | there is exactly one caption word per `^/catalog/` link |
| Pages.LinkTextOf | parse_car_dataset.py:120-127 | the caption: `''` without the heading, otherwise `Join` of `CatalogTexts` with a space (computed by `GetLinkText`) |
| Pages.LinkTextWords | parse_car_dataset.py:127 | `LinkTextOf` of a heading splits back into its caption words when no word holds a space |
| Pages.GallerySmalls | parse_car_dataset.py:137-142 | the `<small>` tags inside the `^/gallery.php?` links, in document order |
| Pages.LastPlainSmall | parse_car_dataset.py:138-145 | the last-wins fold: the text of the last `<small>` without nested tags, or the initial empty list (see `LastPlainSmallIs`) |
| Pages.PlaceMetaOf | parse_car_dataset.py:131-145 | the place tag: `LastPlainSmall` of `GallerySmalls` (computed by `GetPlaceMeta`) |
| Pages.LastPlainSmallIs | parse_car_dataset.py:140-145 | `LastPlainSmall` (and so `PlaceMetaOf`) is the empty list iff every `<small>` has nested tags; otherwise it is the text of a plain `<small>` with no plain one after it |
| Pages.LastPlainSmallAppend | parse_car_dataset.py:140-144 | `LastPlainSmall` of the `<small>` tags of several links (`GallerySmalls`): a later plain `<small>` overrides every earlier one |
| Pages.PlateNumber | parse_car_dataset.py:148-159 | `''` without a plate block; the stripped heading with one; `AttributeError` exactly when the block has no heading |
| Pages.PagesFromShrinks | parse_car_dataset.py:201-240 | moving past a page with thumbnails leaves fewer known pages ahead; on a finite site the page loop therefore ends |
| Pages.FirstEmptyPage | parse_car_dataset.py:201-211 | a first page without thumbnails exists at or after any start page |
| Pages.FirstEmptyPageBefore | parse_car_dataset.py:201-211 | every page before the first empty page shows thumbnails |
| Pages.FirstEmptyPageStep | parse_car_dataset.py:210-211 | walking from page 1, a page up to the first empty one is that page iff it shows no thumbnail |
| Pages.GalleryEnds | parse_car_dataset.py:197-198 | there is one end page per gallery |
| Pages.GalleryEndsSnoc | parse_car_dataset.py:197-198 | the galleries' end pages are computed in gallery order |
| Pages.GalleryEndsAt | parse_car_dataset.py:197-211 | entry i is the first page without thumbnails of gallery i |
| Crawl.Ancestors | parse_car_dataset.py:87 | the parents `os.makedirs` creates with a directory (see `AncestorsAre`) |
| Crawl.ImageCrash | parse_car_dataset.py:102-108 | what `save_image` raises: `KeyError` for an img without `src`, the `requests` error for a `src` without scheme, nothing otherwise |
| Crawl.ImageWrite | parse_car_dataset.py:105-111 | the one file `save_image` writes, `<dir>/<prefix>_<last part of src>`, when the img exists and its `src` is sent |
| Crawl.ImageWriteKeeps | parse_car_dataset.py:110 | an image write leaves every file no deeper than the image directory untouched |
| Crawl.Gate | parse_car_dataset.py:213-233 | the fate of a listing anchor, checked in the loop's order (see `GateMeaning`) |
| Crawl.RecordOf | parse_car_dataset.py:168-181 | the six-field record `save2json` stores for a listing: ads link, caption, real-photo src, generated src or null, place, plate number |
| Crawl.VisitStep | parse_car_dataset.py:213-237 | one pass of the listing loop on a state: the new directory, the downloads done before any exception, and for a recorded listing the map update and the JSON rewrite |
| Crawl.ListingLoop | parse_car_dataset.py:213-237 | the listing loop over a page's anchors in order, stopping at the first exception |
| Crawl.PageEffect | parse_car_dataset.py:202-237 | one pass of the page loop: `make_dir` of the category directory, then the listing loop when the page shows thumbnails |
| Crawl.PageLoop | parse_car_dataset.py:198-241 | the page loop of one gallery: pages in order until the first without thumbnails or an exception |
| Crawl.GalleryLoop | parse_car_dataset.py:197-243 | the gallery loop: galleries in order, the map emptied after each finished one, stopping at an exception |
| Crawl.RecordsOkUpdate | parse_car_dataset.py:183 | adding a record keyed by a listing href, with its ads link and a real photo, keeps the map well formed |
| Crawl.AncestorsAre | parse_car_dataset.py:87 | `Ancestors(dir)`, the parents `os.makedirs` creates, are the prefixes of `dir` that end just before one of its `/` |
| Crawl.GateMeaning | parse_car_dataset.py:213-233 | `Gate`: a listing is recorded iff it has a thumbnail, a new directory, a real photo and a page read without raising; it raises iff, past those first two checks, a download or the plate block does |
| Crawl.DetailSafe | parse_car_dataset.py:220 | a listing the site does not know is served a blank page, which never raises |
| Crawl.ListingLoopNoCrash | parse_car_dataset.py:213-237 | `ListingLoop` (the listing loop folded over `VisitStep`) never raises when no detail page of the site raises |
| Crawl.ListingLoopCrashCause | parse_car_dataset.py:213-237 | an exception in `ListingLoop` comes from the detail page of a thumbnail anchor it visited |
| Crawl.PageLoopFinishes | parse_car_dataset.py:198-241 | when no detail page raises, `PageLoop` (one gallery, page by page through `PageEffect`) finishes exactly at the first page without thumbnails |
| Crawl.PageLoopAbortCause | parse_car_dataset.py:198-241 | a gallery that aborts stops on a page with thumbnails, because of the detail page of one of its thumbnail listings |
| Crawl.GalleryLoopFinishes | parse_car_dataset.py:187-246 | when no detail page raises, `GalleryLoop` (all galleries, the map emptied after each) finishes |
| Crawl.FileSystem.constructor | parse_car_dataset.py:80-89 | the filesystem starts with the given directories and files |
| Crawl.CarParser.constructor | parse_car_dataset.py:25-33 | the crawler starts with an empty, well-formed record map |
| Crawl.CarParser.MakeDir | parse_car_dataset.py:80-89 | returns true iff nothing existed at the path; then it adds the directory and its parents, and otherwise changes nothing; the path exists afterwards |
| Crawl.CarParser.SaveImage | parse_car_dataset.py:92-112 | without an img, returns None and writes nothing; without `src`, or with a `src` that has no `http(s)` scheme, raises before writing; otherwise writes exactly one file `<dir>/<prefix>_<last part of src>` (`ImageWrite`) and returns `src` unchanged |
| Crawl.CarParser.GetLinkText | parse_car_dataset.py:116-128 | the caption is `''` without the heading, and otherwise the space-join of the stripped `^/catalog/` link texts in document order |
| Crawl.CarParser.GetPlaceMeta | parse_car_dataset.py:131-145 | the place is the text of the last plain `<small>` inside a `^/gallery.php?` link, or the initial empty list |
| Crawl.CarParser.Save2Json | parse_car_dataset.py:162-184 | sets exactly the href's key to the six-field record and leaves every other key alone; a plate block without heading raises with the map unchanged |
| Crawl.CarParser.DumpJson | parse_car_dataset.py:236-237 | the category JSON file holds exactly the current record map, and nothing else changes |
| Crawl.CarParser.DownloadImages | parse_car_dataset.py:227-228 | the real photo and then the generated photo are written (`Downloads`); an exception in either is raised with only the real photo's write, if any, done; the JSON file is untouched |
| Crawl.CarParser.SaveListing | parse_car_dataset.py:227-237 | a listing with a new directory is recorded under `RecordOf`, and the JSON file rewritten with the whole map, iff both downloads succeed, the real photo exists and the plate block is readable; otherwise the map and the JSON file are unchanged and the files written are stated per case |
| Crawl.CarParser.VisitListing | parse_car_dataset.py:213-237 | the visit and the new directories, files and map are exactly `VisitStep`: the loop's checks in order (thumbnail, new directory, downloads, real photo, plate); only a recorded listing changes the map, only under its own href, and the JSON file then equals the map |
| Crawl.CarParser.VisitPage | parse_car_dataset.py:213-237 | the final state and exception are exactly `ListingLoop` over the anchors; the JSON file equals the map or both are untouched; no key disappears; every changed key is the href of a thumbnail anchor of the page |
| Crawl.CarParser.ParsePage | parse_car_dataset.py:202-240 | the final state and exception are exactly `PageEffect`: the category directory exists, an empty page changes nothing else, and a page with thumbnails runs the listing loop over its listing anchors; every changed key is a thumbnail listing on this page |
| Crawl.CarParser.ParseGallery | parse_car_dataset.py:198-241 | the final state, outcome and stopping page are exactly `PageLoop` from page 1; a finished gallery stops exactly at its first page without thumbnails; every record added comes from a page visited; the JSON file matches the map or is untouched |
| Crawl.CarParser.Parse | parse_car_dataset.py:187-246 | the final state and outcome are exactly `GalleryLoop` over the galleries in order; a finished crawl stopped each gallery at its first empty page; no file or directory disappears and every written map is well formed; the map is empty once a non-empty crawl finishes |

## Left out

- Browser access is not modelled: the Selenium driver, `get_bfsoup`, `create_driver` and the sleeps. Fetched pages are the `Site` maps; a URL the site does not know yields a blank page.
- `get_galery_links` is not part of this model. Its result is the `galleryLinks` input of `Parse`.
- BeautifulSoup's search and class matching are not modelled. Each page is reduced to what those searches return: the anchors with an href and their thumbnail flag, the caption links, the `<small>` tags, the plate block, and the first img of each class.
- The image bytes are not modelled. `requests.get` is reduced to "the file now holds the download of this URL" (`ImageData(url)`). Network failures and HTTP errors are not modelled.
- Exceptions outside page content are not modelled: I/O errors, and `os.makedirs` failing because a path component is a file. `Exists` treats a file at the path like a directory, as `os.path.exists` does.
- `os.path.join` and `os.makedirs` are modelled without path normalisation. `Ancestors` adds, for each `/` after the first character, the text before that `/` as a parent directory (`images` for `images/al-ctype-x`), so `a//b` yields both `a` and `a/`.
- JSON text formatting (`indent=4`, `ensure_ascii=False`) and logging are not modelled. A written JSON file is the record map itself.
- Crawl.CarParser.Parse: for an aborted crawl, its ghost `lastPages` is only bounded in length and does not list the page each earlier gallery ended on; the state the crawl leaves is still exactly `GalleryLoop`'s.
- Crawl.CarParser.SaveImage: counts every `src` that starts with `http://` or `https://` and has more after it as downloadable. The rest of the URL checks of `requests` are not modelled: upper-case schemes are accepted there, and an empty or malformed host is refused.
- Termination of the page loop (`while True`, line 201) is not a property of the program. It follows from modelling the site as finitely many known pages, where every other URL serves a page without thumbnails. A server that showed thumbnails for every `start` offset would keep the real loop running forever.
