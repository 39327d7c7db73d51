/**
 * The names the crawler derives from links: page URLs, the category
 * directory and its JSON file, the listing id, directory and ads link, the
 * saved image name, and the three href patterns it filters anchors with.
 */
module Names {
  import opened Wrappers
  import opened Text

  /** The site root every listing href is appended to. */
  const BaseUrl: string := "https://platesmania.com"
  /** What every listing href starts with. */
  const ListingPrefix: string := "/al/nomer"
  /** The query parameter that selects a later gallery page. */
  const StartParam: string := "&start="
  const CategoryPrefix: string := "images/al-ctype-"
  const MetaSuffix: string := "-meta.json"

  predicate StartsWith(s: string, p: string) {
    |p| <= |s| && s[..|p|] == p
  }

  /** How many '/' a path holds: its depth. */
  function SlashCount(s: string): nat {
    if s == [] then 0 else SlashCount(s[..|s| - 1]) + (if s[|s| - 1] == '/' then 1 else 0)
  }

  lemma {:induction false} SlashCountAppend(a: string, b: string)
    ensures SlashCount(a + b) == SlashCount(a) + SlashCount(b)
    decreases |b|
  {
    if b != [] {
      assert (a + b)[..|a + b| - 1] == a + b[..|b| - 1];
      SlashCountAppend(a, b[..|b| - 1]);
    } else {
      assert a + b == a;
    }
  }

  lemma {:induction false} SlashCountNone(s: string)
    requires '/' !in s
    ensures SlashCount(s) == 0
  {
    if s != [] {
      assert s[..|s| - 1] <= s;
      SlashCountNone(s[..|s| - 1]);
    }
  }

  // ---------------------------------------------------------------- pages

  /** The URL of page `pageNum` of a gallery: the link itself, then `&start=` and the page before it. */
  function PageUrl(gallery: string, pageNum: nat): string {
    if pageNum > 1 then gallery + StartParam + Decimal(pageNum - 1) else gallery
  }

  /** Which page of `gallery` a URL is, if it is one. */
  function PageAt(gallery: string, url: string): (r: Option<nat>)
    ensures r.Some? ==> r.value >= 1
  {
    if url == gallery then Some(1)
    else if StartsWith(url, gallery + StartParam) then
      match ParseDecimal(url[|gallery| + |StartParam|..])
      case Some(k) => if k >= 1 then Some(k + 1) else None
      case None => None
    else None
  }

  /** Every page URL names its own page number. */
  lemma PageAtPageUrl(gallery: string, pageNum: nat)
    requires pageNum >= 1
    ensures PageAt(gallery, PageUrl(gallery, pageNum)) == Some(pageNum)
  {
    if pageNum > 1 {
      var url := PageUrl(gallery, pageNum);
      assert url[..|gallery + StartParam|] == gallery + StartParam;
      assert url[|gallery| + |StartParam|..] == Decimal(pageNum - 1);
      DecimalRoundTrip(pageNum - 1);
    }
  }

  /** Every URL that names a page is that page's URL. */
  lemma PageUrlPageAt(gallery: string, url: string)
    requires PageAt(gallery, url).Some?
    ensures PageUrl(gallery, PageAt(gallery, url).value) == url
  {
    if url != gallery {
      var tail := url[|gallery| + |StartParam|..];
      ParseDecimalRoundTrip(tail);
      assert url == url[..|gallery + StartParam|] + tail;
    }
  }

  /** Two different pages of one gallery never share a URL. */
  lemma PageUrlInjective(gallery: string, m: nat, n: nat)
    requires m >= 1 && n >= 1 && PageUrl(gallery, m) == PageUrl(gallery, n)
    ensures m == n
  {
    PageAtPageUrl(gallery, m);
    PageAtPageUrl(gallery, n);
  }

  // ----------------------------------------------------------- categories

  /** `images/al-ctype-` then the text after the last '=' of the gallery link (all of it when it has none). */
  function CategoryDir(gallery: string): (r: string)
    ensures r != []
  {
    CategoryPrefix + AfterLast(gallery, '=')
  }

  lemma CategoryDirShape(gallery: string)
    ensures var r := CategoryDir(gallery);
      && StartsWith(r, CategoryPrefix)
      && var tail := r[|CategoryPrefix|..];
      && IsSuffix(tail, gallery) && '=' !in tail
      && ('=' !in gallery ==> tail == gallery)
      && ('=' in gallery ==> |tail| < |gallery| && gallery[|gallery| - |tail| - 1] == '=')
  {
    var r := CategoryDir(gallery);
    AfterLastShape(gallery, '=');
    assert r[|CategoryPrefix|..] == AfterLast(gallery, '=');
  }

  /** The category's JSON file: its directory name followed by `-meta.json`. */
  function JsonFileOf(dir: string): string {
    dir + MetaSuffix
  }

  /** The category's JSON file sits beside its directory and is no deeper. */
  lemma JsonFileBeside(dir: string)
    ensures StartsWith(JsonFileOf(dir), dir) && IsSuffix(MetaSuffix, JsonFileOf(dir))
    ensures SlashCount(JsonFileOf(dir)) == SlashCount(dir)
  {
    assert JsonFileOf(dir)[..|dir|] == dir;
    SlashCountAppend(dir, MetaSuffix);
    SlashCountNone(MetaSuffix);
  }

  // ------------------------------------------------------------- listings

  /** The listing id: the href with every '/' turned into '_'. */
  function ListingId(href: string): (r: string)
    ensures |r| == |href| && '/' !in r
    ensures forall k :: 0 <= k < |href| && href[k] != '/' ==> r[k] == href[k]
    ensures forall k :: 0 <= k < |href| && href[k] == '/' ==> r[k] == '_'
  {
    ReplaceChar(href, '/', '_')
  }

  /** An href with no '_' is recovered from its listing id. */
  lemma ListingIdRestores(href: string)
    requires '_' !in href
    ensures ReplaceChar(ListingId(href), '_', '/') == href
  {
    var back := ReplaceChar(ListingId(href), '_', '/');
    assert forall k :: 0 <= k < |href| ==> back[k] == href[k];
  }

  /** With a '_' in the href the id no longer tells listings apart: two hrefs that differ only by
      '_' against '/' at one place share their id. */
  lemma ListingIdCollides(pre: string, post: string)
    ensures pre + "_" + post != pre + "/" + post
    ensures ListingId(pre + "_" + post) == ListingId(pre + "/" + post)
  {
    var x, y := pre + "_" + post, pre + "/" + post;
    assert x[|pre|] != y[|pre|];
    var a, b := ListingId(x), ListingId(y);
    forall k | 0 <= k < |a| ensures a[k] == b[k] {
      if k < |pre| {
        assert x[k] == pre[k] == y[k];
      } else if k > |pre| {
        assert x[k] == post[k - |pre| - 1] == y[k];
      }
    }
  }

  /** The ads link: the base URL followed by the href. */
  function AdsLink(href: string): string {
    BaseUrl + href
  }

  lemma AdsLinkShape(href: string)
    ensures StartsWith(AdsLink(href), BaseUrl) && AdsLink(href)[|BaseUrl|..] == href
  {
  }

  /** Python's `os.path.join(a, b)` on POSIX. */
  function PathJoin(a: string, b: string): (r: string)
    ensures StartsWith(b, "/") ==> r == b
    ensures !StartsWith(b, "/") && (a == [] || a[|a| - 1] == '/') ==> r == a + b
    ensures !StartsWith(b, "/") && a != [] && a[|a| - 1] != '/' ==> r == a + "/" + b
  {
    if StartsWith(b, "/") then b
    else if a == [] || a[|a| - 1] == '/' then a + b
    else a + "/" + b
  }

  /** The directory of one listing inside its category directory. */
  function ListingDir(typeDir: string, href: string): string {
    PathJoin(typeDir, ListingId(href))
  }

  /** A listing directory is a child of its category directory named by the listing id. */
  lemma ListingDirIsChild(typeDir: string, href: string)
    requires typeDir != []
    ensures StartsWith(ListingDir(typeDir, href), typeDir)
    ensures AfterLast(ListingDir(typeDir, href), '/') == ListingId(href)
  {
    var id := ListingId(href);
    var r := ListingDir(typeDir, href);
    assert !StartsWith(id, "/") by { if |id| > 0 { assert id[0] in id; } }
    var before := if typeDir[|typeDir| - 1] == '/' then typeDir else typeDir + "/";
    assert r == before + id;
    assert r[|r| - |id| - 1] == '/' by { assert r[|r| - |id| - 1] == before[|before| - 1]; }
    var last := AfterLast(r, '/');
    AfterLastShape(r, '/');
    assert '/' in r by { assert r[|r| - |id| - 1] in r; }
    // The last '/' of r is the one just before the id, since neither the id nor the last piece holds one.
    assert last == r[|r| - |id|..] == id;
  }

  /** A listing directory is one level below its category directory (the same level when that ends in '/'). */
  lemma ListingDirDepth(typeDir: string, href: string)
    requires typeDir != []
    ensures SlashCount(ListingDir(typeDir, href)) == SlashCount(typeDir) + (if typeDir[|typeDir| - 1] == '/' then 0 else 1)
  {
    var id := ListingId(href);
    assert !StartsWith(id, "/") by { if |id| > 0 { assert id[0] in id; } }
    var before := if typeDir[|typeDir| - 1] == '/' then typeDir else typeDir + "/";
    assert ListingDir(typeDir, href) == before + id;
    SlashCountAppend(before, id);
    SlashCountNone(id);
    if typeDir[|typeDir| - 1] != '/' {
      SlashCountAppend(typeDir, "/");
    }
  }

  /** The category's JSON file is no deeper than any of its listing directories. */
  lemma JsonFileAboveListing(typeDir: string, href: string)
    requires typeDir != []
    ensures SlashCount(JsonFileOf(typeDir)) <= SlashCount(ListingDir(typeDir, href))
  {
    ListingDirDepth(typeDir, href);
    JsonFileBeside(typeDir);
  }

  // --------------------------------------------------------------- images

  /** A URL `requests.get` will send: an `http://` or `https://` scheme followed by something. */
  predicate IsHttpUrl(url: string) {
    (StartsWith(url, "http://") && |url| > 7) || (StartsWith(url, "https://") && |url| > 8)
  }

  /** The saved image's name: the role prefix, '_', then the text after the last '/' of its source URL. */
  function ImageName(prefix: string, src: string): (r: string)
    ensures StartsWith(r, prefix + "_")
    ensures var tail := r[|prefix| + 1..];
      && IsSuffix(tail, src) && '/' !in tail
      && ('/' !in src ==> tail == src)
      && ('/' in src ==> |tail| < |src| && src[|src| - |tail| - 1] == '/')
  {
    var r := prefix + "_" + AfterLast(src, '/');
    AfterLastShape(src, '/');
    assert r[|prefix| + 1..] == AfterLast(src, '/');
    r
  }

  /** Where an image file is written: `<dir>/<name>`. */
  function ImagePath(dir: string, name: string): (r: string)
    ensures SlashCount(r) == SlashCount(dir) + 1 + SlashCount(name)
  {
    SlashCountAppend(dir + "/", name);
    SlashCountAppend(dir, "/");
    dir + "/" + name
  }

  /** No image a listing saves can land on its category's JSON file. */
  lemma ImageIsNotJsonFile(typeDir: string, href: string, prefix: string, src: string)
    requires typeDir != []
    ensures ImagePath(ListingDir(typeDir, href), ImageName(prefix, src)) != JsonFileOf(typeDir)
  {
    JsonFileAboveListing(typeDir, href);
  }

  // -------------------------------------------------------- href patterns

  /** `(?!.*#)`: no '#' before the first line break ('.' does not cross one). */
  predicate NoHashOnFirstLine(t: string) {
    t == [] || t[0] == '\n' || (t[0] != '#' && NoHashOnFirstLine(t[1..]))
  }

  /** `.*$`: the first line runs to the end, or to a line break that ends the text. */
  predicate FirstLineReachesEnd(t: string) {
    t == [] || (if t[0] == '\n' then |t| == 1 else FirstLineReachesEnd(t[1..]))
  }

  /** The listing-link pattern `^/al/nomer(?!.*#).*$`, searched in an href. */
  predicate IsListingHref(href: string) {
    StartsWith(href, ListingPrefix)
    && NoHashOnFirstLine(href[|ListingPrefix|..]) && FirstLineReachesEnd(href[|ListingPrefix|..])
  }

  lemma {:induction false} ListingTailMeaning(t: string)
    ensures NoHashOnFirstLine(t) && FirstLineReachesEnd(t)
        <==> '#' !in t && forall k :: 0 <= k < |t| - 1 ==> t[k] != '\n'
  {
    if t != [] && t[0] != '\n' && t[0] != '#' {
      ListingTailMeaning(t[1..]);
      assert forall k :: 1 <= k < |t| ==> t[k] == t[1..][k - 1];
      assert t == [t[0]] + t[1..];
    } else if t != [] && t[0] == '\n' && |t| > 1 {
      assert t[0] == '\n';
    } else if t != [] && t[0] == '#' {
      assert t[0] in t;
    }
  }

  /** The listing pattern: the prefix, no '#', and no line break except one that ends the href. */
  lemma ListingHrefMeaning(href: string)
    ensures IsListingHref(href)
        <==> StartsWith(href, ListingPrefix) && '#' !in href
             && forall k :: |ListingPrefix| <= k < |href| - 1 ==> href[k] != '\n'
  {
    if StartsWith(href, ListingPrefix) {
      var t := href[|ListingPrefix|..];
      ListingTailMeaning(t);
      assert href == ListingPrefix + t;
      assert forall k :: |ListingPrefix| <= k < |href| ==> href[k] == t[k - |ListingPrefix|];
      assert '#' !in ListingPrefix;
    }
  }

  /** On a one-line href the pattern reads: starts with `/al/nomer` and holds no '#'. */
  lemma ListingHrefOneLine(href: string)
    requires '\n' !in href
    ensures IsListingHref(href) <==> StartsWith(href, ListingPrefix) && '#' !in href
  {
    ListingHrefMeaning(href);
  }

  /** The caption-link pattern `^/catalog/`. */
  predicate IsCatalogHref(href: string) {
    StartsWith(href, "/catalog/")
  }

  /** The location-link pattern `^/gallery.php?`: `/gallery`, any character but a line break, then `ph`. */
  predicate IsGalleryHref(href: string) {
    |href| >= 11 && href[..8] == "/gallery" && href[8] != '\n' && href[9..11] == "ph"
  }

  /** Every `/gallery.php` link matches, and so does any link that puts another character in place of
      the unescaped dot; the optional `p` never matters. Every match starts with `/gallery`. */
  lemma GalleryHrefMeaning(href: string, c: char, rest: string)
    ensures StartsWith(href, "/gallery.php") ==> IsGalleryHref(href)
    ensures IsGalleryHref(href) ==> StartsWith(href, "/gallery") && |href| >= 11
    ensures c != '\n' ==> IsGalleryHref("/gallery" + [c] + "ph" + rest)
    ensures !IsGalleryHref("/gallery\nphp" + rest)
  {
    if StartsWith(href, "/gallery.php") {
      assert href[..8] == href[..12][..8];
      assert href[9..11] == href[..12][9..11];
    }
    var h := "/gallery" + [c] + "ph" + rest;
    assert h[..8] == "/gallery" && h[8] == c && h[9..11] == "ph";
    var n := "/gallery\nphp" + rest;
    assert n[8] == '\n';
  }
}
