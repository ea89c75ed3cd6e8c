/**
 * What Snug.class.php works against: the files on disk, the directory
 * constants of inc.config.php, the vendored engines, and the three ways a
 * request can end.
 */
module Env {
  import opened Wrappers

  /** The disk: every existing file's path and its content. Sources and the cache share it. */
  type Files = map<string, string>

  /** Template data and decoded JSON objects: PHP arrays keyed and valued by strings. */
  type Data = map<string, string>

  /** The directory constants SNUG_HTDOCS, SNUG_ASSETS, SNUG_POSTS and SNUG_VIEWS. */
  datatype Config = Config(htdocs: string, assets: string, posts: string, views: string)

  /** The layout inc.config.php sets up: the three source directories sit under the document root. */
  function StandardConfig(root: string): (cfg: Config)
    ensures cfg.htdocs == root
    ensures cfg.assets == root + "_assets/" && cfg.posts == root + "_posts/" && cfg.views == root + "_views/"
  {
    Config(root, root + "_assets/", root + "_posts/", root + "_views/")
  }

  /**
   * The vendored libraries, each seen only through what it computes: lessc's
   * compile, Parsedown's text, FrontMatter's fields (with the body under
   * "content"), HamlPHP's parse-then-evaluate of a template text against data,
   * and json_decode (None where PHP gives null).
   */
  datatype Engines = Engines(
    less: string -> string,
    markdown: string -> string,
    frontMatter: string -> Data,
    haml: (string, Data) -> string,
    json: string -> Option<Data>)

  /** How one request ends: the body that is sent, a 301 redirect, or an HTTP error. */
  datatype Outcome = Rendered(text: string) | Redirect(url: string) | Error(code: int, message: string)

  /** The outcome of a request together with the disk it leaves behind. */
  datatype Step = Step(outcome: Outcome, files: Files)

  const BadRequest: Outcome := Error(400, "Bad Request")
  const NotFound: Outcome := Error(404, "Not Found")

  /** `file_get_contents`: a missing file gives `false`, which every caller uses as "". */
  function ReadFile(fs: Files, path: string): (r: string)
    ensures path in fs ==> r == fs[path]
    ensures path !in fs ==> r == ""
  {
    if path in fs then fs[path] else ""
  }

  /** PHP's truthiness of a string that may be null: null, "" and "0" are false. */
  predicate Truthy(v: Option<string>) {
    v.Some? && v.value != "" && v.value != "0"
  }
}
