/**
 * The `Snug` object of Snug.class.php. Its handlers run against the disk,
 * held here as the object's `files`; a handler either ends the request early
 * (an exception or a redirect, here an `Outcome`) or renders and writes the
 * result to the cache through `writeFile`. Each handler is proved to do what
 * the matching step function of module Handlers describes.
 */
module Site {
  import opened Strings
  import opened Env
  import opened Classify
  import opened Posts
  import opened Layouts
  import opened Handlers

  class Snug {
    /** The directory constants of inc.config.php. */
    const cfg: Config
    /** The vendored engines. */
    const eng: Engines
    /** The disk: sources, and the cache the handlers write. */
    var files: Files

    constructor(cfg: Config, eng: Engines, files: Files)
      ensures this.cfg == cfg && this.eng == eng && this.files == files
    {
      this.cfg := cfg;
      this.eng := eng;
      this.files := files;
    }

    /** `writeFile`: open for writing (creating or truncating), write the content. */
    method WriteFile(path: string, content: string)
      modifies this
      ensures files == old(files)[path := content]
    {
      files := files[path := content];
    }

    /** `handleAsset`. */
    method HandleAsset(file: string) returns (out: Outcome)
      modifies this
      ensures Step(out, files) == AssetStep(old(files), cfg, eng, file)
    {
      if !IsAsset(file) {
        return BadRequest;
      }
      var url := file;
      var lss := DropLast(url, 3) + "less";
      assert cfg.assets + lss == LessSourceFor(cfg, url);
      if cfg.assets + lss !in files {
        return NotFound;
      }
      var data := eng.less(files[cfg.assets + lss]);
      WriteFile(cfg.htdocs + url, data);
      return Rendered(data);
    }

    /** `handlePage`. */
    method HandlePage(file: string) returns (out: Outcome)
      modifies this
      ensures Step(out, files) == PageStep(old(files), cfg, eng, file)
    {
      if !IsPage(file) {
        out := BadRequest;
      } else if IsStaticPage(files, cfg, file) {
        var html := HandleStaticPage(file);
        out := Rendered(html);
      } else {
        out := HandlePost(file);
      }
    }

    /** `handlePost`. */
    method HandlePost(file: string) returns (out: Outcome)
      modifies this
      ensures Step(out, files) == PostStep(old(files), cfg, eng, file)
    {
      var check := DoesPostNeedRedirect(files, cfg, eng, file);
      if check == PostNotFound {
        return NotFound;
      }
      if check.MovedTo? {
        return Redirect(check.url);
      }
      var lang, name := RequestLang(file), RequestName(file);
      var post := CheckPostAvailable(files, cfg, eng, lang, name);
      if !Truthy(post) {
        return NotFound;
      }
      var data := GetPost(files, cfg, eng, post.value);
      var html := BuildPost(files, cfg, eng, data);
      WriteFile(cfg.htdocs + file, html);
      return Rendered(html);
    }

    /** `handleStaticPage`. */
    method HandleStaticPage(file: string) returns (html: string)
      modifies this
      ensures Step(Rendered(html), files) == StaticPageStep(old(files), cfg, eng, file)
    {
      html := GetInLayout(files, cfg, eng, GetTemplateForPage(cfg, file), map[]);
      WriteFile(cfg.htdocs + file, html);
    }
  }
}
