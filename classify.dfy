/**
 * Request classification in Snug.class.php: is a requested URI a stylesheet
 * asset, a page, and if a page, a static HAML template; plus the source paths
 * derived from the URI by cutting off a fixed number of characters.
 */
module Classify {
  import opened Strings
  import opened Env

  /** `$formatAssets` and `$formatPages`. */
  const AssetFormats: seq<string> := ["css"]
  const PageFormats: seq<string> := ["html"]

  /** `strtolower(end(explode('.', $file)))`: the lower-cased text after the last dot, or the whole URI. */
  function Extension(file: string): string {
    ToLower(Last(Explode(".", file)))
  }

  /** `isAsset`. */
  predicate IsAsset(file: string) {
    Extension(file) in AssetFormats
  }

  /** `isPage`. */
  predicate IsPage(file: string) {
    Extension(file) in PageFormats
  }

  /**
   * `l` (a lower-cased URI) ends in `.ext`, or is `ext` itself: the two ways the
   * last piece of an explode on '.' can be `ext`.
   */
  predicate DotSuffix(l: string, ext: string) {
    l == ext || (|l| > |ext| && l[|l| - |ext| - 1] == '.' && l[|l| - |ext|..] == ext)
  }

  lemma LowerSuffix(s: string, k: nat)
    requires k <= |s|
    ensures ToLower(s[k..]) == ToLower(s)[k..]
  {
  }

  lemma LowerKeepsDots(s: string)
    ensures forall i :: 0 <= i < |s| ==> (ToLower(s)[i] == '.' <==> s[i] == '.')
  {
  }

  /** A last piece that lower-cases to `ext` shows up as a `.ext` ending (or all) of the lower-cased URI. */
  lemma LastPieceToSuffix(file: string, l: string, ext: string)
    requires IsLastPiece('.', file, l)
    requires ToLower(l) == ext
    ensures DotSuffix(ToLower(file), ext)
  {
    var k := |file| - |l|;
    assert l == file[k..];
    LowerSuffix(file, k);
    LowerKeepsDots(file);
  }

  /** A URI whose lower-cased form is `ext` itself has no dot, so it is its own last piece. */
  lemma WholeExtToLastPiece(file: string, l: string, ext: string)
    requires IsLastPiece('.', file, l)
    requires '.' !in ext && ToLower(file) == ext
    ensures ToLower(l) == ext
  {
    LowerKeepsDots(file);
    assert forall i :: 0 <= i < |file| ==> ToLower(file)[i] == ext[i];
    assert forall i :: 0 <= i < |file| ==> file[i] != '.';
    assert l == file;
  }

  /** A `.ext` ending of the lower-cased URI is exactly its last piece, lower-cased. */
  lemma DotExtToLastPiece(file: string, l: string, ext: string)
    requires IsLastPiece('.', file, l)
    requires '.' !in ext && |ext| > 0
    requires |file| > |ext| && ToLower(file)[|file| - |ext| - 1] == '.' && ToLower(file)[|file| - |ext|..] == ext
    ensures ToLower(l) == ext
  {
    var low := ToLower(file);
    var n := |ext|;
    var k := |file| - |l|;
    LowerKeepsDots(file);
    assert file[|file| - n - 1] == '.';
    assert forall i :: |file| - n <= i < |file| ==> low[i] == ext[i - (|file| - n)];
    assert forall i :: |file| - n <= i < |file| ==> file[i] != '.';
    assert l == file[k..];
    assert forall i :: k <= i < |file| ==> file[i] == l[i - k];
    assert forall i :: k <= i < |file| ==> file[i] != '.';
    assert k == |file| - n;
    LowerSuffix(file, k);
  }

  /** An extension of `ext` shows up as a `.ext` ending (or all) of the lower-cased URI. */
  lemma ExtensionToSuffix(file: string, ext: string)
    requires Extension(file) == ext
    ensures DotSuffix(ToLower(file), ext)
  {
    var l := Last(Explode(".", file));
    ExplodeLast('.', file);
    LastPieceToSuffix(file, l, ext);
  }

  /** A `.ext` ending (or all) of the lower-cased URI is its extension. */
  lemma SuffixToExtension(file: string, ext: string)
    requires |ext| > 0 && '.' !in ext
    requires DotSuffix(ToLower(file), ext)
    ensures Extension(file) == ext
  {
    var l := Last(Explode(".", file));
    ExplodeLast('.', file);
    if ToLower(file) == ext {
      WholeExtToLastPiece(file, l, ext);
    } else {
      DotExtToLastPiece(file, l, ext);
    }
  }

  /** The extension test of isAsset and isPage is a test on the end of the lower-cased URI. */
  lemma ExtensionIff(file: string, ext: string)
    requires |ext| > 0 && '.' !in ext
    ensures Extension(file) == ext <==> DotSuffix(ToLower(file), ext)
  {
    if Extension(file) == ext {
      ExtensionToSuffix(file, ext);
    }
    if DotSuffix(ToLower(file), ext) {
      SuffixToExtension(file, ext);
    }
  }

  /** A URI is an asset exactly when it ends in `.css` in any letter case (or is `css` itself). */
  lemma IsAssetIff(file: string)
    ensures IsAsset(file) <==> DotSuffix(ToLower(file), "css")
  {
    ExtensionIff(file, "css");
  }

  /** A URI is a page exactly when it ends in `.html` in any letter case (or is `html` itself). */
  lemma IsPageIff(file: string)
    ensures IsPage(file) <==> DotSuffix(ToLower(file), "html")
  {
    ExtensionIff(file, "html");
  }

  /** Classification ignores letter case: `style.CSS` and `style.css` are classified alike. */
  lemma ClassificationIgnoresCase(a: string, b: string)
    requires ToLower(a) == ToLower(b)
    ensures IsAsset(a) == IsAsset(b)
    ensures IsPage(a) == IsPage(b)
  {
    IsAssetIff(a);
    IsAssetIff(b);
    IsPageIff(a);
    IsPageIff(b);
  }

  /** No URI is both an asset and a page. */
  lemma AssetsAreNotPages(file: string)
    ensures !(IsAsset(file) && IsPage(file))
  {
  }

  /** `getTemplateForPage`: the views directory, the URI without its last 4 characters, then `haml`. */
  function GetTemplateForPage(cfg: Config, url: string): (r: string)
    ensures EndsWith(r, "haml")
  {
    cfg.views + DropLast(url, 4) + "haml"
  }

  /** handleAsset's `substr($url, 0, -3) . 'less'`, looked up under the assets directory. */
  function LessSourceFor(cfg: Config, url: string): (r: string)
    ensures EndsWith(r, "less")
  {
    cfg.assets + DropLast(url, 3) + "less"
  }

  /** `isStaticPage`: the first character of the whole URI is not `_` and its template exists. */
  predicate IsStaticPage(fs: Files, cfg: Config, url: string) {
    Substr(url, 0, 1) != "_" && GetTemplateForPage(cfg, url) in fs
  }

  /** For a page, the template path is the URI with its `html` extension swapped for `haml`. */
  lemma PageTemplateSwapsExtension(cfg: Config, url: string)
    requires IsPage(url)
    ensures |url| >= 4 && ToLower(url[|url| - 4..]) == "html"
    ensures GetTemplateForPage(cfg, url) == cfg.views + url[..|url| - 4] + "haml"
    ensures |url| == 4 || url[|url| - 5] == '.'
  {
    IsPageIff(url);
    LowerSuffix(url, |url| - 4);
  }

  /** For an asset, the LESS source is the URI with its `css` extension swapped for `less`. */
  lemma AssetSourceSwapsExtension(cfg: Config, url: string)
    requires IsAsset(url)
    ensures |url| >= 3 && ToLower(url[|url| - 3..]) == "css"
    ensures LessSourceFor(cfg, url) == cfg.assets + url[..|url| - 3] + "less"
    ensures |url| == 3 || url[|url| - 4] == '.'
  {
    IsAssetIff(url);
    LowerSuffix(url, |url| - 3);
  }

  /**
   * The `_` guard only ever looks at the first character of the whole URI: a
   * URI that starts with `/`, as every requested path does, is static exactly
   * when its template exists, whatever its last segment starts with.
   */
  lemma UnderscoreGuardSeesFirstCharOnly(fs: Files, cfg: Config, url: string)
    requires |url| > 0 && url[0] != '_'
    ensures IsStaticPage(fs, cfg, url) <==> GetTemplateForPage(cfg, url) in fs
  {
    assert Substr(url, 0, 1) == [url[0]];
  }

  /** A URI starting with `_` is never a static page. */
  lemma UnderscoreUriIsNotStatic(fs: Files, cfg: Config, url: string)
    requires |url| > 0 && url[0] == '_'
    ensures !IsStaticPage(fs, cfg, url)
  {
    assert Substr(url, 0, 1) == "_";
  }
}
