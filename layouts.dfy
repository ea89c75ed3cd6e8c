/**
 * The render pipeline of Snug.class.php: a template's front matter may set a
 * title and pick a layout, its content is rendered with the data, and the
 * result is rendered again as `body` inside the layout.
 */
module Layouts {
  import opened Wrappers
  import opened Strings
  import opened Env
  import opened Functions

  /** The layout every page gets unless its front matter picks another. */
  const DefaultLayout: string := "_layout.haml"

  /** The template every blog post is rendered with. */
  const PostTemplate: string := "_post.haml"

  /** `getLayoutFile`: where a named layout lives. */
  function GetLayoutFile(cfg: Config, name: string): (path: string)
    ensures EndsWith(path, ".haml")
    ensures path != cfg.views + DefaultLayout
  {
    var path := cfg.views + "_layout_" + name + ".haml";
    assert path[|path| - 5..] == ".haml";
    assert path[|cfg.views| + 7] == '_' && (cfg.views + DefaultLayout)[|cfg.views| + 7] == '.';
    path
  }

  /** `layoutExists`: the named layout's file is on disk. */
  predicate LayoutExists(fs: Files, cfg: Config, name: string) {
    GetLayoutFile(cfg, name) in fs
  }

  /** FrontMatter's `fetch`: the value of a front-matter field, null when absent. */
  function Fetch(fm: Data, key: string): (v: Option<string>)
    ensures v.Some? <==> key in fm
    ensures v.Some? ==> v.value == fm[key]
  {
    if key in fm then Some(fm[key]) else None
  }

  /**
   * The layout getInLayout wraps the content in: the one the front matter
   * names when that name is truthy and its file exists, the default one
   * otherwise. An override can never be mistaken for the default.
   */
  function SelectLayout(fs: Files, cfg: Config, fm: Data): (path: string)
    ensures EndsWith(path, ".haml")
    ensures var name := Fetch(fm, "layout");
            path != cfg.views + DefaultLayout <==> Truthy(name) && LayoutExists(fs, cfg, name.value)
    ensures var name := Fetch(fm, "layout");
            path != cfg.views + DefaultLayout ==> path == GetLayoutFile(cfg, name.value)
  {
    var name := Fetch(fm, "layout");
    if Truthy(name) && LayoutExists(fs, cfg, name.value) then GetLayoutFile(cfg, name.value)
    else
      var path := cfg.views + DefaultLayout;
      assert path[|path| - 5..] == ".haml";
      path
  }

  /** The data the content sees: the caller's data, with the front matter's title when that is truthy. */
  function TitledData(fm: Data, data: Data): (d: Data)
    ensures Truthy(Fetch(fm, "title")) ==> "title" in d && d["title"] == fm["title"]
    ensures d.Keys == if Truthy(Fetch(fm, "title")) then data.Keys + {"title"} else data.Keys
    ensures forall k :: k in data && k != "title" ==> d[k] == data[k]
    ensures !Truthy(Fetch(fm, "title")) ==> d == data
  {
    var title := Fetch(fm, "title");
    if Truthy(title) then AddKey(data, "title", title.value) else data
  }

  /** What getInLayout passes to HamlPHP: the layout file, the rendered body, and the layout's data. */
  datatype LayoutCall = LayoutCall(layout: string, body: string, data: Data)

  /**
   * getInLayout up to the last rendering: the content is rendered with the
   * titled data, and the layout gets the titled data plus `body`.
   */
  function PlanLayout(fs: Files, cfg: Config, eng: Engines, content: string, data: Data): (c: LayoutCall)
    ensures c.layout == SelectLayout(fs, cfg, eng.frontMatter(ReadFile(fs, content)))
    ensures c.body == eng.haml(Fetch(eng.frontMatter(ReadFile(fs, content)), "content").GetOr(""),
                               TitledData(eng.frontMatter(ReadFile(fs, content)), data))
    ensures "body" in c.data && c.data["body"] == c.body
    ensures forall k :: k in data && k != "title" && k != "body" ==> k in c.data && c.data[k] == data[k]
    ensures c.data.Keys == TitledData(eng.frontMatter(ReadFile(fs, content)), data).Keys + {"body"}
  {
    var fm := eng.frontMatter(ReadFile(fs, content));
    var d := TitledData(fm, data);
    var body := eng.haml(Fetch(fm, "content").GetOr(""), d);
    LayoutCall(SelectLayout(fs, cfg, fm), body, AddKey(d, "body", body))
  }

  /** `getInLayout`: the layout's template text rendered with the planned data. */
  function GetInLayout(fs: Files, cfg: Config, eng: Engines, content: string, data: Data): string {
    var c := PlanLayout(fs, cfg, eng, content, data);
    eng.haml(ReadFile(fs, c.layout), c.data)
  }

  /**
   * Where the layout's `title` comes from: the template's front matter when it
   * sets a truthy title, otherwise the caller's data, otherwise nowhere.
   */
  lemma LayoutTitle(fs: Files, cfg: Config, eng: Engines, content: string, data: Data)
    ensures var fm := eng.frontMatter(ReadFile(fs, content));
            var c := PlanLayout(fs, cfg, eng, content, data);
            && (Truthy(Fetch(fm, "title")) ==> "title" in c.data && c.data["title"] == fm["title"])
            && (!Truthy(Fetch(fm, "title")) && "title" in data ==> "title" in c.data && c.data["title"] == data["title"])
            && ("title" in c.data <==> Truthy(Fetch(fm, "title")) || "title" in data)
  {
    var fm := eng.frontMatter(ReadFile(fs, content));
    var d := TitledData(fm, data);
    assert "title" != "body" by { assert "title"[0] != "body"[0]; }
    assert "title" in d <==> Truthy(Fetch(fm, "title")) || "title" in data;
  }

  /** `buildPost`: the post's data rendered through the post template, in its layout. */
  function BuildPost(fs: Files, cfg: Config, eng: Engines, post: Data): string {
    GetInLayout(fs, cfg, eng, cfg.views + PostTemplate, post)
  }

  /**
   * The post's fields reach the layout: every field except `title` and `body`
   * unchanged, and the post's title unless the post template sets its own.
   */
  lemma BuildPostKeepsFields(fs: Files, cfg: Config, eng: Engines, post: Data)
    requires "title" in post
    ensures var fm := eng.frontMatter(ReadFile(fs, cfg.views + PostTemplate));
            var c := PlanLayout(fs, cfg, eng, cfg.views + PostTemplate, post);
            && BuildPost(fs, cfg, eng, post) == eng.haml(ReadFile(fs, c.layout), c.data)
            && (forall k :: k in post && k != "title" && k != "body" ==> k in c.data && c.data[k] == post[k])
            && "title" in c.data
            && c.data["title"] == (if Truthy(Fetch(fm, "title")) then fm["title"] else post["title"])
  {
    LayoutTitle(fs, cfg, eng, cfg.views + PostTemplate, post);
  }
}
