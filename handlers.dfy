/**
 * The request handlers of Snug.class.php as functions from the disk to an
 * outcome and the disk left behind: handleAsset, handleStaticPage,
 * handlePost and handlePage. A rendered response is also written to the
 * document root under the requested name, so that the web server serves it
 * directly next time.
 */
module Handlers {
  import opened Strings
  import opened Env
  import opened Classify
  import opened Posts
  import opened Layouts

  /** `handleAsset`: compile the LESS source of a requested stylesheet and cache it. */
  function AssetStep(fs: Files, cfg: Config, eng: Engines, file: string): Step {
    if !IsAsset(file) then Step(BadRequest, fs)
    else
      var lss := LessSourceFor(cfg, file);
      if lss !in fs then Step(NotFound, fs)
      else
        var data := eng.less(fs[lss]);
        Step(Rendered(data), fs[cfg.htdocs + file := data])
  }

  /** `handleStaticPage`: render the page's template, with no data, in its layout, and cache it. */
  function StaticPageStep(fs: Files, cfg: Config, eng: Engines, file: string): Step {
    var html := GetInLayout(fs, cfg, eng, GetTemplateForPage(cfg, file), map[]);
    Step(Rendered(html), fs[cfg.htdocs + file := html])
  }

  /**
   * `handlePost`: redirect to the canonical URL, or 404, or render the post
   * through the post template and cache it. The second availability check
   * repeats the one the redirect decision already made.
   */
  function PostStep(fs: Files, cfg: Config, eng: Engines, file: string): Step {
    match DoesPostNeedRedirect(fs, cfg, eng, file)
    case PostNotFound => Step(NotFound, fs)
    case MovedTo(url) => Step(Redirect(url), fs)
    case AtCanonical =>
      var post := CheckPostAvailable(fs, cfg, eng, RequestLang(file), RequestName(file));
      if !Truthy(post) then Step(NotFound, fs)
      else
        var html := BuildPost(fs, cfg, eng, GetPost(fs, cfg, eng, post.value));
        Step(Rendered(html), fs[cfg.htdocs + file := html])
  }

  /** `handlePage`: 400 for anything but `.html`, else a static page when its template exists, else a post. */
  function PageStep(fs: Files, cfg: Config, eng: Engines, file: string): Step {
    if !IsPage(file) then Step(BadRequest, fs)
    else if IsStaticPage(fs, cfg, file) then StaticPageStep(fs, cfg, eng, file)
    else PostStep(fs, cfg, eng, file)
  }

  /** A request either fails and leaves the disk alone, or renders and writes exactly its own cache file. */
  predicate CachesOnlyItself(fs: Files, cfg: Config, file: string, s: Step) {
    && (s.outcome.Rendered? ==> s.files == fs[cfg.htdocs + file := s.outcome.text])
    && (!s.outcome.Rendered? ==> s.files == fs)
  }

  /**
   * handleAsset's outcomes: 400 exactly for names that do not end in `.css`
   * (in any case), 404 exactly when the LESS source is missing, and otherwise
   * the compiled source, written to the cache. It never redirects.
   */
  lemma AssetOutcomes(fs: Files, cfg: Config, eng: Engines, file: string)
    ensures var s := AssetStep(fs, cfg, eng, file);
            && CachesOnlyItself(fs, cfg, file, s)
            && (s.outcome == BadRequest <==> !DotSuffix(ToLower(file), "css"))
            && (s.outcome == NotFound <==> DotSuffix(ToLower(file), "css") && LessSourceFor(cfg, file) !in fs)
            && (s.outcome.Rendered? <==> DotSuffix(ToLower(file), "css") && LessSourceFor(cfg, file) in fs)
            && (s.outcome.Rendered? ==> s.outcome.text == eng.less(fs[LessSourceFor(cfg, file)]))
            && !s.outcome.Redirect?
  {
    IsAssetIff(file);
  }

  /**
   * handlePage's outcomes: 400 exactly for names that do not end in `.html`
   * (in any case); a static page always renders; a post redirects exactly when
   * the request is not its canonical URL; every request caches only itself.
   */
  lemma PageOutcomes(fs: Files, cfg: Config, eng: Engines, file: string)
    ensures var s := PageStep(fs, cfg, eng, file);
            && CachesOnlyItself(fs, cfg, file, s)
            && (s.outcome == BadRequest <==> !DotSuffix(ToLower(file), "html"))
            && (IsPage(file) && IsStaticPage(fs, cfg, file) ==>
                  s.outcome == Rendered(GetInLayout(fs, cfg, eng, GetTemplateForPage(cfg, file), map[])))
            && (s.outcome.Redirect? <==>
                  IsPage(file) && !IsStaticPage(fs, cfg, file) && DoesPostNeedRedirect(fs, cfg, eng, file).MovedTo?)
            && (s.outcome.Redirect? ==> s.outcome.url == DoesPostNeedRedirect(fs, cfg, eng, file).url)
  {
    IsPageIff(file);
    if IsPage(file) && !IsStaticPage(fs, cfg, file) {
      PostOutcomes(fs, cfg, eng, file);
    }
  }

  /**
   * handlePost's outcomes: never a 400; a redirect exactly when the redirect
   * decision moves the request, to the URL it names; the request caches only
   * itself.
   */
  lemma PostOutcomes(fs: Files, cfg: Config, eng: Engines, file: string)
    ensures var s := PostStep(fs, cfg, eng, file);
            && CachesOnlyItself(fs, cfg, file, s)
            && s.outcome != BadRequest
            && (s.outcome.Redirect? <==> DoesPostNeedRedirect(fs, cfg, eng, file).MovedTo?)
            && (s.outcome.Redirect? ==> s.outcome.url == DoesPostNeedRedirect(fs, cfg, eng, file).url)
  {
  }

  /**
   * A page request that is neither a static page nor a known post in the
   * requested language is a 404; that includes every `.html` URI whose first
   * character is `_` and that names no stored post (the guard against `_`
   * looks only at the URI's first character, not at the file name).
   */
  lemma UnknownPageIsNotFound(fs: Files, cfg: Config, eng: Engines, file: string)
    requires IsPage(file) && !IsStaticPage(fs, cfg, file)
    requires !Truthy(CheckPostAvailable(fs, cfg, eng, RequestLang(file), RequestName(file)))
    ensures PageStep(fs, cfg, eng, file) == Step(NotFound, fs)
  {
    RedirectDecision(fs, cfg, eng, file);
  }

  /** A post that is requested at its canonical URL renders and is cached there. */
  lemma CanonicalPostRenders(fs: Files, cfg: Config, eng: Engines, file: string)
    requires IsPage(file) && !IsStaticPage(fs, cfg, file)
    requires DoesPostNeedRedirect(fs, cfg, eng, file) == AtCanonical
    ensures var post := CheckPostAvailable(fs, cfg, eng, RequestLang(file), RequestName(file));
            && Truthy(post)
            && PageStep(fs, cfg, eng, file).outcome == Rendered(BuildPost(fs, cfg, eng, GetPost(fs, cfg, eng, post.value)))
  {
    RedirectDecision(fs, cfg, eng, file);
  }

  /* ---------- cache writes do not disturb the sources ---------- */

  /** The third character from the end, if there is one. */
  predicate ThirdFromEnd(p: string, c: char) {
    |p| >= 3 && p[|p| - 3] == c
  }

  /** Every path ending in `haml` has an `a` third from the end. */
  lemma HamlThirdFromEnd(p: string)
    requires EndsWith(p, "haml")
    ensures ThirdFromEnd(p, 'a')
  {
    assert p[|p| - 3] == p[|p| - 4..][1];
  }

  /** A path with `t` or `T` third from the end does not end in `haml`. */
  lemma NotHamlByThird(p: string)
    requires ThirdFromEnd(p, 't') || ThirdFromEnd(p, 'T')
    ensures !EndsWith(p, "haml")
  {
    if EndsWith(p, "haml") {
      HamlThirdFromEnd(p);
    }
  }

  /** A path ending in `.haml` ends in `haml`. */
  lemma DotHamlIsHaml(p: string)
    requires EndsWith(p, ".haml")
    ensures EndsWith(p, "haml")
  {
    assert p[|p| - 4..] == p[|p| - 5..][1..];
  }

  /** A cached page's path ends in `html` in some case, so its third character from the end is `t` or `T`. */
  lemma PageCacheThirdFromEnd(cfg: Config, file: string)
    requires IsPage(file)
    ensures ThirdFromEnd(cfg.htdocs + file, 't') || ThirdFromEnd(cfg.htdocs + file, 'T')
  {
    PageTemplateSwapsExtension(cfg, file);
    var p := cfg.htdocs + file;
    assert ToLower(file[|file| - 4..])[1] == 't';
    assert p[|p| - 3] == file[|file| - 4..][1];
  }

  /** A cached page is neither a template nor a post's metadata file. */
  lemma PageCacheIsNoSource(cfg: Config, file: string, id: string)
    requires IsPage(file)
    ensures !EndsWith(cfg.htdocs + file, "haml")
    ensures cfg.htdocs + file != MetaPath(cfg, id)
  {
    PageCacheThirdFromEnd(cfg, file);
    NotHamlByThird(cfg.htdocs + file);
    var meta := MetaPath(cfg, id);
    assert meta[|meta| - 3] == 's';
  }

  /** A cached stylesheet's path is never its LESS source: `c`/`C` against `e` third from the end. */
  lemma AssetCacheIsNotSource(cfg: Config, file: string)
    requires IsAsset(file)
    ensures cfg.htdocs + file != LessSourceFor(cfg, file)
  {
    AssetSourceSwapsExtension(cfg, file);
    var p := cfg.htdocs + file;
    var q := LessSourceFor(cfg, file);
    assert ToLower(file[|file| - 3..])[0] == 'c';
    assert p[|p| - 3] == file[|file| - 3..][0];
    assert q[|q| - 3] == 'e';
  }

  /** Writing a file whose path does not end in `haml` leaves the choice of layout unchanged. */
  lemma SelectLayoutFrame(fs: Files, cfg: Config, fm: Data, p: string, x: string)
    requires !EndsWith(p, "haml")
    ensures SelectLayout(fs[p := x], cfg, fm) == SelectLayout(fs, cfg, fm)
  {
    var name := Fetch(fm, "layout");
    if name.Some? {
      DotHamlIsHaml(GetLayoutFile(cfg, name.value));
      assert LayoutExists(fs[p := x], cfg, name.value) == LayoutExists(fs, cfg, name.value);
    }
  }

  /** Writing a file whose path does not end in `haml` leaves the plan of a template rendering unchanged. */
  lemma PlanLayoutFrame(fs: Files, cfg: Config, eng: Engines, content: string, data: Data, p: string, x: string)
    requires EndsWith(content, "haml")
    requires !EndsWith(p, "haml")
    ensures PlanLayout(fs[p := x], cfg, eng, content, data) == PlanLayout(fs, cfg, eng, content, data)
  {
    assert ReadFile(fs[p := x], content) == ReadFile(fs, content);
    SelectLayoutFrame(fs, cfg, eng.frontMatter(ReadFile(fs, content)), p, x);
  }

  /** Writing a file whose path does not end in `haml` leaves every rendering through templates unchanged. */
  lemma GetInLayoutFrame(fs: Files, cfg: Config, eng: Engines, content: string, data: Data, p: string, x: string)
    requires EndsWith(content, "haml")
    requires !EndsWith(p, "haml")
    ensures GetInLayout(fs[p := x], cfg, eng, content, data) == GetInLayout(fs, cfg, eng, content, data)
  {
    PlanLayoutFrame(fs, cfg, eng, content, data, p, x);
    var layout := PlanLayout(fs, cfg, eng, content, data).layout;
    DotHamlIsHaml(layout);
    assert ReadFile(fs[p := x], layout) == ReadFile(fs, layout);
  }

  /** Writing any file but the requested post's metadata leaves the redirect decision and the stored value unchanged. */
  lemma RedirectFrame(fs: Files, cfg: Config, eng: Engines, file: string, p: string, x: string)
    requires p != MetaPath(cfg, PostId(RequestName(file)))
    ensures DoesPostNeedRedirect(fs[p := x], cfg, eng, file) == DoesPostNeedRedirect(fs, cfg, eng, file)
    ensures CheckPostAvailable(fs[p := x], cfg, eng, RequestLang(file), RequestName(file))
         == CheckPostAvailable(fs, cfg, eng, RequestLang(file), RequestName(file))
  {
    var meta := MetaPath(cfg, PostId(RequestName(file)));
    assert ReadFile(fs[p := x], meta) == ReadFile(fs, meta);
  }

  /** Writing a file with the content it already has changes nothing. */
  lemma RewriteSameContent(fs: Files, p: string, x: string)
    requires p in fs && fs[p] == x
    ensures fs[p := x] == fs
  {
  }

  /** Serving a stylesheet twice gives the same response and leaves the disk as the first request left it. */
  lemma AssetIdempotent(fs: Files, cfg: Config, eng: Engines, file: string)
    ensures var s := AssetStep(fs, cfg, eng, file);
            AssetStep(s.files, cfg, eng, file) == s
  {
    var s := AssetStep(fs, cfg, eng, file);
    if s.outcome.Rendered? {
      AssetCacheIsNotSource(cfg, file);
      var lss := LessSourceFor(cfg, file);
      assert lss in s.files && s.files[lss] == fs[lss];
      RewriteSameContent(s.files, cfg.htdocs + file, s.outcome.text);
    }
  }

  /** Serving a static page twice gives the same response and leaves the disk as the first request left it. */
  lemma StaticPageIdempotent(fs: Files, cfg: Config, eng: Engines, file: string)
    requires IsPage(file) && IsStaticPage(fs, cfg, file)
    ensures var s := PageStep(fs, cfg, eng, file);
            PageStep(s.files, cfg, eng, file) == s
  {
    var s := PageStep(fs, cfg, eng, file);
    var p := cfg.htdocs + file;
    var html := s.outcome.text;
    PageCacheThirdFromEnd(cfg, file);
    NotHamlByThird(p);
    var tpl := GetTemplateForPage(cfg, file);
    HamlThirdFromEnd(tpl);
    assert IsStaticPage(s.files, cfg, file);
    GetInLayoutFrame(fs, cfg, eng, tpl, map[], p, html);
    RewriteSameContent(s.files, p, html);
  }

  /** Writing any file but a post's source leaves that post's data unchanged. */
  lemma GetPostFrame(fs: Files, cfg: Config, eng: Engines, post: string, p: string, x: string)
    requires p != PostSourcePath(cfg, post)
    ensures GetPost(fs[p := x], cfg, eng, post) == GetPost(fs, cfg, eng, post)
  {
    assert ReadFile(fs[p := x], PostSourcePath(cfg, post)) == ReadFile(fs, PostSourcePath(cfg, post));
  }

  /** In the standard layout a post's source, under `_posts/`, is never the cache file of a URL starting with `/`. */
  lemma PostSourceIsNotCache(root: string, post: string, file: string)
    requires |file| > 0 && file[0] == '/'
    ensures PostSourcePath(StandardConfig(root), post) != StandardConfig(root).htdocs + file
  {
    var src := PostSourcePath(StandardConfig(root), post);
    var p := StandardConfig(root).htdocs + file;
    assert src[|root|] == '_';
    assert p[|root|] == '/';
  }

  /** A post that renders was requested at its canonical URL, which starts with `/`. */
  lemma RenderedPostIsCanonical(fs: Files, cfg: Config, eng: Engines, file: string)
    requires PostStep(fs, cfg, eng, file).outcome.Rendered?
    ensures DoesPostNeedRedirect(fs, cfg, eng, file) == AtCanonical
    ensures |file| > 0 && file[0] == '/'
  {
    RedirectDecision(fs, cfg, eng, file);
  }

  /** A post requested at its canonical URL is rendered from its stored value and cached under the request. */
  lemma CanonicalPostStep(fs: Files, cfg: Config, eng: Engines, file: string)
    requires DoesPostNeedRedirect(fs, cfg, eng, file) == AtCanonical
    ensures var post := CheckPostAvailable(fs, cfg, eng, RequestLang(file), RequestName(file));
            && Truthy(post)
            && var html := BuildPost(fs, cfg, eng, GetPost(fs, cfg, eng, post.value));
               PostStep(fs, cfg, eng, file) == Step(Rendered(html), fs[cfg.htdocs + file := html])
  {
    RedirectDecision(fs, cfg, eng, file);
  }

  /** Writing a file whose path does not end in `haml` leaves the rendering of post data unchanged. */
  lemma BuildPostFrame(fs: Files, cfg: Config, eng: Engines, d: Data, p: string, x: string)
    requires !EndsWith(p, "haml")
    ensures BuildPost(fs[p := x], cfg, eng, d) == BuildPost(fs, cfg, eng, d)
  {
    var tplPost := cfg.views + PostTemplate;
    assert tplPost[|tplPost| - 4..] == "haml";
    GetInLayoutFrame(fs, cfg, eng, tplPost, d, p, x);
  }

  /** The rendering of a post does not change when a file that it does not read is written. */
  lemma PostRenderFrame(fs: Files, root: string, eng: Engines, file: string, post: string, p: string, x: string)
    requires |file| > 0 && file[0] == '/' && p == StandardConfig(root).htdocs + file
    requires !EndsWith(p, "haml")
    ensures var cfg := StandardConfig(root);
            BuildPost(fs[p := x], cfg, eng, GetPost(fs[p := x], cfg, eng, post)) == BuildPost(fs, cfg, eng, GetPost(fs, cfg, eng, post))
  {
    var cfg := StandardConfig(root);
    PostSourceIsNotCache(root, post, file);
    GetPostFrame(fs, cfg, eng, post, p, x);
    BuildPostFrame(fs, cfg, eng, GetPost(fs, cfg, eng, post), p, x);
  }

  /**
   * Serving a post at its canonical URL twice gives the same response and
   * leaves the disk as the first request left it, with the directories laid
   * out as inc.config.php lays them out (the cache cannot overwrite the post's
   * source, which sits under `_posts/`).
   */
  lemma PostIdempotentInStandardLayout(fs: Files, root: string, eng: Engines, file: string)
    requires IsPage(file) && !IsStaticPage(fs, StandardConfig(root), file)
    requires PageStep(fs, StandardConfig(root), eng, file).outcome.Rendered?
    ensures var s := PageStep(fs, StandardConfig(root), eng, file);
            PageStep(s.files, StandardConfig(root), eng, file) == s
  {
    var cfg := StandardConfig(root);
    var p := cfg.htdocs + file;
    var s := PostStep(fs, cfg, eng, file);
    assert PageStep(fs, cfg, eng, file) == s;
    RenderedPostIsCanonical(fs, cfg, eng, file);
    CanonicalPostStep(fs, cfg, eng, file);
    var post := CheckPostAvailable(fs, cfg, eng, RequestLang(file), RequestName(file)).value;
    var html := BuildPost(fs, cfg, eng, GetPost(fs, cfg, eng, post));
    assert s == Step(Rendered(html), fs[p := html]);
    var fs' := fs[p := html];
    PageCacheIsNoSource(cfg, file, PostId(RequestName(file)));
    assert !IsStaticPage(fs', cfg, file) by {
      PageCacheThirdFromEnd(cfg, file);
      HamlThirdFromEnd(GetTemplateForPage(cfg, file));
    }
    assert PageStep(fs', cfg, eng, file) == PostStep(fs', cfg, eng, file);
    RedirectFrame(fs, cfg, eng, file, p, html);
    CanonicalPostStep(fs', cfg, eng, file);
    PostRenderFrame(fs, root, eng, file, post, p, html);
    RewriteSameContent(fs', p, html);
  }
}
