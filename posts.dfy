/**
 * Blog posts in Snug.class.php: the post id and language read off a requested
 * URI, the per-post metadata file, the canonical URL built from the stored
 * value, the redirect decision, and the positional split of a post source into
 * header, title and body.
 */
module Posts {
  import opened Wrappers
  import opened Strings
  import opened Env

  /** `list(, $lang, $name) = explode('/', $file)`: the language segment. */
  function RequestLang(file: string): (lang: string)
    ensures '/' !in lang
  {
    var parts := Explode("/", file);
    ExplodePartsAvoid("/", file);
    if 1 < |parts| then IndexOfChar(parts[1], '/'); parts[1] else ""
  }

  /** `list(, $lang, $name) = explode('/', $file)`: the file-name segment. */
  function RequestName(file: string): (name: string)
    ensures '/' !in name
  {
    var parts := Explode("/", file);
    ExplodePartsAvoid("/", file);
    if 2 < |parts| then IndexOfChar(parts[2], '/'); parts[2] else ""
  }

  /** `list($id, ) = explode('-', $name)`: the text before the first `-`, or the whole name. No numeric check. */
  function PostId(name: string): (id: string)
    ensures '-' !in id
    ensures |id| <= |name| && id == name[..|id|]
    ensures |id| < |name| ==> name[|id|] == '-'
  {
    ExplodePartsAvoid("-", name);
    IndexOfChar(Explode("-", name)[0], '-');
    IndexOfChar(name, '-');
    Explode("-", name)[0]
  }

  /** `SNUG_POSTS . $id . '.json'`. */
  function MetaPath(cfg: Config, id: string): string {
    cfg.posts + id + ".json"
  }

  /** `getMeta`: the decoded metadata file, read without checking that it exists. */
  function GetMeta(fs: Files, cfg: Config, eng: Engines, id: string): Option<Data> {
    eng.json(ReadFile(fs, MetaPath(cfg, id)))
  }

  /** `$meta->$lang`: null when the metadata did not decode or has no such language. */
  function MetaField(meta: Option<Data>, lang: string): (v: Option<string>)
    ensures v.Some? <==> meta.Some? && lang in meta.value
    ensures v.Some? ==> v.value == meta.value[lang]
  {
    if meta.Some? && lang in meta.value then Some(meta.value[lang]) else None
  }

  /** `checkPostAvailable`: the stored value for the language, or null when the metadata file is missing. */
  function CheckPostAvailable(fs: Files, cfg: Config, eng: Engines, lang: string, name: string): (v: Option<string>)
    ensures v.Some? ==> MetaPath(cfg, PostId(name)) in fs
  {
    var id := PostId(name);
    if MetaPath(cfg, id) in fs then MetaField(GetMeta(fs, cfg, eng, id), lang) else None
  }

  /**
   * The canonical URL for a stored value: `/<lang>/`, then the stored value
   * without its last two characters and with every `-<LANG>-` made a single
   * `-`, then `html`.
   */
  function PostUrl(lang: string, stored: string): (url: string)
    ensures |url| > 0 && url[0] == '/'
    ensures EndsWith(url, "html")
  {
    var slug := StrReplace("-" + ToUpper(lang) + "-", "-", DropLast(stored, 2));
    var url := "/" + lang + "/" + slug + "html";
    assert url[|url| - 4..] == "html";
    url
  }

  /** `buildPostURL`: the canonical URL for the value stored under `id` and `lang` ("" when there is none). */
  function BuildPostURL(fs: Files, cfg: Config, eng: Engines, id: string, lang: string): string {
    PostUrl(lang, MetaField(GetMeta(fs, cfg, eng, id), lang).GetOr(""))
  }

  /** What `doesPostNeedsRedirect` decides: throw 404, no redirect (`false`), or redirect to a URL. */
  datatype RedirectCheck = PostNotFound | AtCanonical | MovedTo(url: string)

  /** `doesPostNeedsRedirect`. */
  function DoesPostNeedRedirect(fs: Files, cfg: Config, eng: Engines, file: string): RedirectCheck {
    var lang := RequestLang(file);
    var name := RequestName(file);
    var id := PostId(name);
    if !Truthy(CheckPostAvailable(fs, cfg, eng, lang, name)) then PostNotFound
    else
      var needed := BuildPostURL(fs, cfg, eng, id, lang);
      if file == needed then AtCanonical else MovedTo(needed)
  }

  /** Once the metadata file is known to exist, buildPostURL uses the very value checkPostAvailable returned. */
  lemma BuildPostURLUsesStoredValue(fs: Files, cfg: Config, eng: Engines, lang: string, name: string)
    requires CheckPostAvailable(fs, cfg, eng, lang, name).Some?
    ensures BuildPostURL(fs, cfg, eng, PostId(name), lang) == PostUrl(lang, CheckPostAvailable(fs, cfg, eng, lang, name).value)
  {
  }

  /** The URL scheme at work: the value stored for `en` names the post's Markdown file. */
  lemma PostUrlExample(lang: string, stored: string)
    requires lang == "en" && stored == "31415-EN-lorem-ipsum.md"
    ensures PostUrl(lang, stored) == "/en/31415-lorem-ipsum.html"
  {
    var search := "-" + ToUpper(lang) + "-";
    ExampleSearch(lang);
    var cut := DropLast(stored, 2);
    ExampleCut(stored, search);
    var slug := StrReplace(search, "-", cut);
    ExampleSlug(search, cut);
    ExampleJoin(lang, slug);
  }

  /** The language marker the example's stored value carries. */
  lemma ExampleSearch(lang: string)
    requires lang == "en"
    ensures "-" + ToUpper(lang) + "-" == "-EN-"
  {
    assert ToUpper(lang) == "EN";
  }

  /** The example's stored value without its `md` extension. */
  lemma ExampleCut(stored: string, search: string)
    requires stored == "31415-EN-lorem-ipsum.md" && search == "-EN-"
    ensures DropLast(stored, 2) == "31415" + (search + "lorem-ipsum.")
  {
  }

  /** The example's slug: its one language marker replaced by `-`. */
  lemma ExampleSlug(search: string, cut: string)
    requires search == "-EN-" && cut == "31415" + (search + "lorem-ipsum.")
    ensures StrReplace(search, "-", cut) == "31415-lorem-ipsum."
  {
    var id, rest := "31415", "lorem-ipsum.";
    assert search[0] !in id && search[1] !in rest;
    StrReplaceOnce(search, "-", id, rest, 1);
    ExampleSlugJoin(id, rest);
  }

  /** The example slug's pieces, joined. */
  lemma ExampleSlugJoin(id: string, rest: string)
    requires id == "31415" && rest == "lorem-ipsum."
    ensures id + ("-" + rest) == "31415-lorem-ipsum."
  {
  }

  /** The pieces of the example URL, joined. */
  lemma ExampleJoin(lang: string, slug: string)
    requires lang == "en" && slug == "31415-lorem-ipsum."
    ensures "/" + lang + "/" + slug + "html" == "/en/31415-lorem-ipsum.html"
  {
  }

  /**
   * The redirect decision: 404 exactly when no truthy value is stored for the
   * id and language; otherwise no redirect exactly when the request already is
   * the canonical URL, and a redirect to the canonical URL when it is not.
   */
  lemma RedirectDecision(fs: Files, cfg: Config, eng: Engines, file: string)
    ensures var v := CheckPostAvailable(fs, cfg, eng, RequestLang(file), RequestName(file));
            var r := DoesPostNeedRedirect(fs, cfg, eng, file);
            && (r == PostNotFound <==> !Truthy(v))
            && (r == AtCanonical <==> Truthy(v) && file == PostUrl(RequestLang(file), v.value))
            && (r.MovedTo? ==> Truthy(v) && r.url == PostUrl(RequestLang(file), v.value) && r.url != file)
  {
    var v := CheckPostAvailable(fs, cfg, eng, RequestLang(file), RequestName(file));
    if v.Some? {
      BuildPostURLUsesStoredValue(fs, cfg, eng, RequestLang(file), RequestName(file));
    }
  }

  /** The canonical URL splits back into `''`, the language and one file name. */
  lemma PostUrlSegments(lang: string, stored: string)
    requires '/' !in lang && '/' !in stored
    ensures var slug := StrReplace("-" + ToUpper(lang) + "-", "-", DropLast(stored, 2));
            && '/' !in slug
            && RequestLang(PostUrl(lang, stored)) == lang
            && RequestName(PostUrl(lang, stored)) == slug + "html"
  {
    var slug := StrReplace("-" + ToUpper(lang) + "-", "-", DropLast(stored, 2));
    assert forall i :: 0 <= i < |DropLast(stored, 2)| ==> DropLast(stored, 2)[i] == stored[i];
    StrReplaceKeepsOut("-" + ToUpper(lang) + "-", "-", DropLast(stored, 2), '/');
    assert '/' !in slug + "html";
    ExplodeThreeSegments('/', lang, slug + "html");
    assert "/" + lang + "/" + slug + "html" == ['/'] + lang + ['/'] + (slug + "html");
  }

  /** The slug of the canonical URL starts with `<id>-` when the stored value does and keeps that `-`. */
  lemma SlugKeepsId(id: string, lang: string, stored: string)
    requires '-' !in id
    requires |stored| >= |id| + 3 && stored[..|id| + 1] == id + "-"
    ensures var slug := StrReplace("-" + ToUpper(lang) + "-", "-", DropLast(stored, 2));
            |slug| > |id| && slug[..|id| + 1] == id + "-"
  {
    var search := "-" + ToUpper(lang) + "-";
    var cut := DropLast(stored, 2);
    assert cut[..|id| + 1] == stored[..|id| + 1];
    var rest := cut[|id| + 1..];
    assert cut == id + ("-" + rest);
    StrReplaceSkipsPrefix(search, "-", id, "-" + rest);
    StrReplaceKeepsFirst(search, "-", "-" + rest);
  }

  /**
   * The canonical URL names the same post id again, provided the stored value
   * starts with `<id>-` and keeps that `-` once its last two characters go.
   */
  lemma PostUrlKeepsId(id: string, lang: string, stored: string)
    requires '-' !in id && '/' !in lang && '/' !in stored
    requires |stored| >= |id| + 3 && stored[..|id| + 1] == id + "-"
    ensures PostId(RequestName(PostUrl(lang, stored))) == id
  {
    var slug := StrReplace("-" + ToUpper(lang) + "-", "-", DropLast(stored, 2));
    SlugKeepsId(id, lang, stored);
    PostUrlSegments(lang, stored);
    var name := slug + "html";
    assert name == id + "-" + (slug[|id| + 1..] + "html");
    ExplodeHeadChar(id, '-', slug[|id| + 1..] + "html");
  }

  /**
   * Requesting the canonical URL of a post never redirects again: it reads
   * back the same language and id, finds the same stored value, and builds the
   * same URL. The stored value must start with `<id>-`, be at least three
   * characters longer than the id and hold no `/`.
   */
  lemma CanonicalUrlIsStable(fs: Files, cfg: Config, eng: Engines, id: string, lang: string)
    requires '-' !in id && '/' !in lang
    requires var v := CheckPostAvailable(fs, cfg, eng, lang, id);
             && Truthy(v) && '/' !in v.value
             && |v.value| >= |id| + 3 && v.value[..|id| + 1] == id + "-"
    ensures var v := CheckPostAvailable(fs, cfg, eng, lang, id);
            DoesPostNeedRedirect(fs, cfg, eng, PostUrl(lang, v.value)) == AtCanonical
  {
    var v := CheckPostAvailable(fs, cfg, eng, lang, id).value;
    var url := PostUrl(lang, v);
    PostUrlSegments(lang, v);
    PostUrlKeepsId(id, lang, v);
    var name := RequestName(url);
    assert PostId(id) == id by {
      ExplodeNoDelimiter('-', id);
    }
    assert CheckPostAvailable(fs, cfg, eng, lang, name) == CheckPostAvailable(fs, cfg, eng, lang, id);
    BuildPostURLUsesStoredValue(fs, cfg, eng, lang, name);
  }

  /**
   * A redirect points at a URL that is final: requesting the redirect target
   * does not redirect again (under the same conditions on the stored value).
   */
  lemma RedirectIsFinal(fs: Files, cfg: Config, eng: Engines, file: string)
    requires DoesPostNeedRedirect(fs, cfg, eng, file).MovedTo?
    requires var id := PostId(RequestName(file));
             var v := CheckPostAvailable(fs, cfg, eng, RequestLang(file), RequestName(file)).value;
             '/' !in v && |v| >= |id| + 3 && v[..|id| + 1] == id + "-"
    ensures DoesPostNeedRedirect(fs, cfg, eng, DoesPostNeedRedirect(fs, cfg, eng, file).url) == AtCanonical
  {
    var lang := RequestLang(file);
    var id := PostId(RequestName(file));
    RedirectDecision(fs, cfg, eng, file);
    assert PostId(id) == id by {
      ExplodeNoDelimiter('-', id);
    }
    assert CheckPostAvailable(fs, cfg, eng, lang, id) == CheckPostAvailable(fs, cfg, eng, lang, RequestName(file));
    CanonicalUrlIsStable(fs, cfg, eng, id, lang);
  }

  /* ---------- the post source ---------- */

  /** `)-->`, the end of a post's JSON header. */
  const HeaderEnd: string := ")-->"

  /** The three parts getPost cuts a post source into. */
  datatype PostText = PostText(header: string, title: string, text: string)

  /**
   * getPost's first cut: skip 5 characters, explode on `)-->`, and keep the
   * trimmed first piece as header and the trimmed second piece (the text up to
   * a second `)-->`, if any) as body.
   */
  function SplitHeader(src: string): (r: (string, string))
    ensures IsTrimmed(r.0) && IsTrimmed(r.1)
    ensures IndexOf(r.0, HeaderEnd).None?
  {
    var parts := Explode(HeaderEnd, SubstrFrom(src, 5));
    ExplodePartsAvoid(HeaderEnd, SubstrFrom(src, 5));
    NoOccurrenceInPiece(parts[0], HeaderEnd);
    (Trim(parts[0]), Trim(Segment(parts, 1)))
  }

  /** Trimming a text without an occurrence leaves none. */
  lemma NoOccurrenceInPiece(s: string, d: string)
    requires IndexOf(s, d).None?
    ensures IndexOf(Trim(s), d).None?
  {
    var i := SkipLeft(s, 0);
    NoOccurrenceInSlice(s, d, i, i + |Trim(s)|);
  }

  /**
   * getPost's second cut of the trimmed body: the title is the first line
   * without its first character, trimmed; the text is the rest from the first
   * line break, trimmed. With no line break the title is "" and the text is
   * the whole body.
   */
  function SplitTitle(body: string): (r: (string, string))
    ensures IsTrimmed(r.0) && IsTrimmed(r.1)
    ensures '\n' !in r.0
    ensures IndexOf(body, "\n").None? ==> r == ("", Trim(body))
  {
    match IndexOf(body, "\n")
    case None => ("", Trim(body))
    case Some(p) =>
      IndexOfChar(body, '\n');
      var line := Substr(body, 1, p);
      assert line == body[1..p + 1];
      TitleHasNoBreak(body, p);
      (Trim(line), Trim(SubstrFrom(Trim(body), p)))
  }

  /** The title piece reaches at most to the first line break, which trimming removes. */
  lemma TitleHasNoBreak(body: string, p: nat)
    requires p < |body| && body[p] == '\n' && '\n' !in body[..p]
    ensures '\n' !in Trim(body[1..p + 1])
  {
    if p > 0 {
      var line := body[1..p + 1];
      assert line[|line| - 1] == '\n';
      assert forall k :: 0 <= k < |line| - 1 ==> line[k] == body[..p][k + 1];
      TrimBeforeTrimChar(line, '\n');
    }
  }

  /** Trimming text that ends in a strippable character keeps nothing of that last character. */
  lemma TrimBeforeTrimChar(s: string, c: char)
    requires |s| > 0 && IsTrimChar(s[|s| - 1])
    requires forall k :: 0 <= k < |s| - 1 ==> s[k] != c
    ensures c !in Trim(s)
  {
    var r := Trim(s);
    var i := SkipLeft(s, 0);
    if |r| > 0 {
      assert r[|r| - 1] == s[i + |r| - 1];
      assert i + |r| <= |s| - 1;
      forall k | 0 <= k < |r| ensures r[k] != c {
        assert r[k] == s[i + k];
      }
    }
  }

  /** getPost's cuts, in order. */
  function SplitPost(src: string): PostText {
    var (header, body) := SplitHeader(src);
    var (title, text) := SplitTitle(body);
    PostText(header, title, text)
  }

  /**
   * The data getPost returns for the cut post: the decoded header (an empty
   * array when it does not decode, as PHP turns null into an array on the
   * first assignment), with the title and the Markdown-converted text added.
   */
  function PostData(eng: Engines, parts: PostText): (post: Data)
    ensures "title" in post && post["title"] == parts.title
    ensures "content" in post && post["content"] == eng.markdown(parts.text)
    ensures eng.json(parts.header).Some? ==>
              forall k :: k in eng.json(parts.header).value && k != "title" && k != "content" ==>
                k in post && post[k] == eng.json(parts.header).value[k]
    ensures post.Keys == eng.json(parts.header).GetOr(map[]).Keys + {"title", "content"}
  {
    var header := eng.json(parts.header).GetOr(map[]);
    assert "title" != "content" by { assert "title"[0] != "content"[0]; }
    header["title" := parts.title]["content" := eng.markdown(parts.text)]
  }

  /** The file getPost reads: the posts directory, a `/`, then the requested name. */
  function PostSourcePath(cfg: Config, file: string): string {
    cfg.posts + "/" + file
  }

  /** `getPost`: the post at `file`, cut and converted. */
  function GetPost(fs: Files, cfg: Config, eng: Engines, file: string): Data {
    PostData(eng, SplitPost(ReadFile(fs, PostSourcePath(cfg, file))))
  }

  /** The `)-->` marker cannot overlap itself, so after a header free of it the first one is right after the header. */
  lemma HeaderEndAfter(h: string, rest: string)
    requires IndexOf(h, HeaderEnd).None?
    ensures IndexOf(h + HeaderEnd + rest, HeaderEnd) == Some(|h|)
  {
    var s := h + HeaderEnd + rest;
    var d := HeaderEnd;
    assert s[|h|..|h| + 4] == d;
    assert OccursAt(s, d, |h|);
    forall j: nat | j < |h| ensures !OccursAt(s, d, j) {
      if j + 4 <= |h| {
        assert s[j..j + 4] == h[j..j + 4];
        assert !OccursAt(h, d, j);
      } else {
        assert s[|h|] == ')';
        assert j + 4 <= |s| ==> s[j..j + 4][|h| - j] == s[|h|];
      }
    }
  }

  /** The first cut gives back a header and a body laid out behind the 5-character opener. */
  lemma SplitHeaderOf(opener: string, header: string, body: string)
    requires |opener| == 5
    requires IndexOf(header, HeaderEnd).None? && IndexOf(body, HeaderEnd).None?
    ensures SplitHeader(opener + header + HeaderEnd + body) == (Trim(header), Trim(body))
  {
    var src := opener + header + HeaderEnd + body;
    assert SubstrFrom(src, 5) == header + HeaderEnd + body;
    HeaderEndAfter(header, body);
    var s := header + HeaderEnd + body;
    assert s[..|header|] == header;
    assert s[|header| + 4..] == body;
    assert Explode(HeaderEnd, s) == [header] + Explode(HeaderEnd, body);
  }

  /** Whatever follows it, the first `)-->` behind the opener ends the header, and the body is the piece after it. */
  lemma HeaderIsBeforeFirstMarker(opener: string, header: string, rest: string)
    requires |opener| == 5 && IndexOf(header, HeaderEnd).None?
    ensures SplitHeader(opener + header + HeaderEnd + rest).0 == Trim(header)
    ensures SplitHeader(opener + header + HeaderEnd + rest).1 == Trim(Explode(HeaderEnd, rest)[0])
  {
    var src := opener + header + HeaderEnd + rest;
    var s := header + HeaderEnd + rest;
    assert SubstrFrom(src, 5) == s;
    HeaderEndAfter(header, rest);
    assert s[..|header|] == header;
    assert s[|header| + 4..] == rest;
    ExplodeUnfold(HeaderEnd, s);
  }

  /** A second `)-->` cuts the body short: what follows it is dropped. */
  lemma SecondMarkerEndsBody(opener: string, header: string, body: string, rest: string)
    requires |opener| == 5
    requires IndexOf(header, HeaderEnd).None? && IndexOf(body, HeaderEnd).None?
    ensures SplitHeader(opener + header + HeaderEnd + (body + HeaderEnd + rest)) == (Trim(header), Trim(body))
  {
    var t := body + HeaderEnd + rest;
    HeaderIsBeforeFirstMarker(opener, header, t);
    HeaderEndAfter(body, rest);
    assert t[..|body|] == body;
    ExplodeUnfold(HeaderEnd, t);
  }

  /** Without a `)-->` behind the opener, all of it is the header and the body is "". */
  lemma MissingMarkerLeavesNoBody(src: string)
    requires IndexOf(SubstrFrom(src, 5), HeaderEnd).None?
    ensures SplitHeader(src) == (Trim(SubstrFrom(src, 5)), "")
  {
    TrimAllTrimChars("");
  }

  /** With the first line break at `p`, the second cut is the trimmed pieces on either side of it. */
  lemma SplitTitleAt(body: string, p: nat)
    requires IndexOf(body, "\n") == Some(p)
    ensures p < |body|
    ensures SplitTitle(body) == (Trim(Substr(body, 1, p)), Trim(SubstrFrom(Trim(body), p)))
  {
    match IndexOf(body, "\n")
    case Some(q) => assert q == p;
  }

  /** The pieces on either side of the line break in `<mark><title>\n<text>`. */
  lemma TitleLinePieces(mark: char, title: string, text: string)
    ensures var body := [mark] + title + "\n" + text;
            && Substr(body, 1, |title| + 1) == title + "\n"
            && SubstrFrom(body, |title| + 1) == "\n" + text
  {
    var body := [mark] + title + "\n" + text;
    assert body[1..|title| + 2] == title + "\n";
    assert body[|title| + 1..] == "\n" + text;
  }

  /** The second cut gives back a title and a text laid out as `<mark><title>\n<text>`. */
  lemma SplitTitleOf(mark: char, title: string, text: string)
    requires !IsTrimChar(mark)
    requires IsTrimmed(title) && '\n' !in title
    requires IsTrimmed(text) && |text| > 0
    ensures Trim([mark] + title + "\n" + text) == [mark] + title + "\n" + text
    ensures SplitTitle([mark] + title + "\n" + text) == (title, text)
  {
    var body := [mark] + title + "\n" + text;
    assert IsTrimmed(body) by {
      assert body[0] == mark;
      assert body[|body| - 1] == text[|text| - 1];
    }
    TrimTrimmed(body);
    var p := |title| + 1;
    assert IndexOf(body, "\n") == Some(p) by {
      assert body == ([mark] + title) + ['\n'] + text;
      IndexOfCharAfter([mark] + title, '\n', text);
    }
    SplitTitleAt(body, p);
    TitleLinePieces(mark, title, text);
    TrimNewlineAround(title);
    TrimNewlineAround(text);
  }

  /**
   * Round trip: a post laid out as a 5-character opener, a trimmed header,
   * `)-->`, then a marked title line and the text, splits back into exactly
   * that header, title and text.
   */
  lemma SplitPostRoundTrip(opener: string, header: string, mark: char, title: string, text: string)
    requires |opener| == 5
    requires IsTrimmed(header) && IndexOf(header, HeaderEnd).None?
    requires !IsTrimChar(mark) && IsTrimmed(title) && '\n' !in title
    requires IsTrimmed(text) && |text| > 0
    requires IndexOf([mark] + title + "\n" + text, HeaderEnd).None?
    ensures SplitPost(opener + header + HeaderEnd + ([mark] + title + "\n" + text)) == PostText(header, title, text)
  {
    var body := [mark] + title + "\n" + text;
    SplitHeaderOf(opener, header, body);
    TrimTrimmed(header);
    SplitTitleOf(mark, title, text);
  }
}
