# Snug request resolution, modelled in Dafny

Snug is a small PHP site generator. A web server sends it every request for a
`.css` or `.html` file that does not exist yet. Snug works out where the source
is, renders it and answers. It also writes the result under the requested name
in the document root, so the next request is served from disk.

- **Stylesheets.** A stylesheet request `x.css` is compiled from the LESS source `_assets/x.less`.
- **Static pages.** A page request `p.html` is a static page when the HAML template `_views/p.haml` exists. It is rendered in a layout.
- **Blog posts.** Any other page request is taken as a blog post `/<lang>/<id>-<slug>.html`:
  - `_posts/<id>.json` stores, per language, the name of the post's Markdown file.
  - The canonical URL is derived from that stored name.
  - A request at any other URL is redirected there.
  - A post with no stored name is a 404.
  - Otherwise the Markdown file is split into a JSON header, a title and a text, and rendered through `_views/_post.haml` in a layout.

The model covers the request logic of the `Snug` class (`Snug.class.php`) and the
helper `array_add_key` (`inc.functions.php`).

- **Disk.** The disk is a map from path to content. `file_exists` is membership.
- **Reading a file.** `file_get_contents` of a missing file gives the empty string, which is what every caller makes of PHP's `false`.
- **Engines.** The vendored engines (lessc, Parsedown, FrontMatter, HamlPHP) and PHP's `json_decode` are opaque function-valued parameters.
- **Handlers.** Each handler is a pure step function in module `Handlers`, from the disk to an outcome and the disk left behind: a rendered body, a 301 redirect, or an HTTP error.
- **The Snug class.** The `Snug` class in module `Site` holds the disk as a mutable field. Its handler methods follow the PHP control flow and are proved to agree with those step functions.

Modules:

- `Strings`: the PHP string built-ins the code relies on:
  - `strpos`, `substr` with negative lengths, `explode` and `implode`, and `str_replace`;
  - ASCII `strtolower` and `strtoupper`;
  - `trim` with PHP's default character set.

  PHP truthiness of `""` and `"0"` is modelled too, by `Env.Truthy`.
- `Functions`: `array_add_key`.
- `Env`: the disk, the directory constants, the engines and outcomes.
- `Classify`:
  - asset and page classification by extension;
  - the LESS and HAML source paths;
  - the static-page test.
- `Posts`: request segments, post id, metadata lookup, canonical URL, redirect decision, and the split of a post source.
- `Layouts`: front-matter title and layout selection, and rendering in a layout.
- `Handlers`: the four handlers as step functions, with their outcomes and cache behaviour.
- `Site`: the `Snug` class.

Behaviour of the code worth knowing:

- **The `_` guard.** `isStaticPage` tests the first character of the whole URI, not the first character of its last segment. A request such as `/_layout.html` therefore passes the guard (`Classify.UnderscoreGuardSeesFirstCharOnly`).
- **Undecodable post header.** When the header does not decode, `getPost` does not fail: `json_decode` gives null, and the first assignment turns it into an array. The post then has only `title` and `content` (`Posts.PostData`).
- **Non-numeric post id.** The post id is whatever comes before the first `-`, and no numeric check is made (`Posts.PostId`). A non-numeric id is treated like any other: it is looked up and is a 404 when missing.
- **Missing metadata file.** `getMeta` reads the metadata file without checking that it exists. Only `checkPostAvailable` checks existence.
- **Second `)-->`.** `explode` splits at every `)-->`, so the post body ends at a second marker if the text contains one (`Posts.SecondMarkerEndsBody`). A source with no marker at all is all header, with an empty body (`Posts.MissingMarkerLeavesNoBody`).
- **Post without a text.** When the trimmed body has no line break, `strpos` gives `false`. The title is then "" and the content is the whole trimmed body, title marker included (`Posts.SplitTitle`). So a post whose text is empty does not split back into its title (`Posts.SplitPostRoundTrip` needs a non-empty text).
- **Bytes.** PHP's `substr` and `strpos` count bytes. In the model one `char` stands for one byte, so text outside ASCII is not modelled character for character.

## Model

| member | source | states |
|---|---|---|
| Strings.IndexOf | Snug.class.php:174 | `strpos`: a found index is an occurrence and no earlier index is one; none found means no occurrence anywhere |
| Strings.IndexOfChar | Snug.class.php:174-175 | `strpos` of a character: none exactly when the character is absent; otherwise it is there and not before |
| Strings.IndexOfCharAfter | Snug.class.php:174 | the first line break of `p + "\n" + q` is at `|p|` when `p` has none |
| Strings.DropLast | Snug.class.php:60 | `substr($s, 0, -n)`: a prefix of `s`, `n` shorter, or empty when `s` is too short |
| Strings.SubstrFrom | Snug.class.php:169 | `substr($s, k)`: what follows the first `k` characters, empty past the end |
| Strings.Substr | Snug.class.php:174 | `substr($s, k, n)`: a prefix of what follows `k`, exactly `n` characters when there are enough and all of the rest otherwise; "" past the end |
| Strings.ToLower | Snug.class.php:296 | `strtolower`: same length, each character lowered, no capital left |
| Strings.ToUpper | Snug.class.php:60 | `strtoupper`: same length, each character raised, no small letter left |
| Strings.Explode | Snug.class.php:294 | `explode` always yields at least one piece |
| Strings.Implode | Snug.class.php:60 | `implode`: the parts joined by the glue; the reference that `Strings.StrReplaceIsImplodeExplode` ties `str_replace` to |
| Strings.Segment | Snug.class.php:83 | a `list()` slot: the piece at that position, or "" (PHP's null) when `explode` gave fewer pieces |
| Strings.Last | Snug.class.php:294-296 | `end()`: the last piece; `Strings.ExplodeLast` says what it is for `explode` |
| Strings.ImplodeExplode | Snug.class.php:294 | joining the pieces of `explode` with the delimiter gives back the text |
| Strings.ExplodePartsAvoid | Snug.class.php:71 | no piece of `explode` contains the delimiter |
| Strings.ExplodeHeadChar | Snug.class.php:71 | the first piece is the text before the first delimiter |
| Strings.ExplodeNoDelimiter | Snug.class.php:71 | a text without the delimiter is one piece, itself |
| Strings.ExplodeThreeSegments | Snug.class.php:83 | `/a/b` with no `/` in `a` or `b` explodes to `''`, `a`, `b` |
| Strings.ExplodeLast | Snug.class.php:294-296 | `end(explode)` is the text after the last delimiter, or the whole text |
| Strings.StrReplace | Snug.class.php:60 | `str_replace`: the first occurrence replaced, then the rest of the text after it; its meaning is stated by the lemmas below |
| Strings.StrReplaceIsImplodeExplode | Snug.class.php:60 | `str_replace` is implode of explode: every occurrence, left to right, without overlap |
| Strings.StrReplaceKeepsOut | Snug.class.php:60 | a character in neither the text nor the replacement is not in the result |
| Strings.StrReplaceSkipsPrefix | Snug.class.php:60 | a prefix that cannot start an occurrence is kept as it is |
| Strings.StrReplaceKeepsFirst | Snug.class.php:60 | a text and a replacement with the same first character give a result that starts with it |
| Strings.StrReplaceAbsent | Snug.class.php:60 | a text lacking a character of the search string has no occurrence and is unchanged |
| Strings.StrReplaceOnce | Snug.class.php:60 | a single occurrence is replaced exactly once |
| Strings.SkipLeft | Snug.class.php:170 | the first index from `i` on that holds no strippable character, everything skipped being strippable |
| Strings.SkipRight | Snug.class.php:170 | the end once the strippable characters before `j` are skipped, everything skipped being strippable |
| Strings.Trim | Snug.class.php:170-175 | `trim`: a trimmed middle piece with only strippable characters around it |
| Strings.TrimOf | Snug.class.php:170-175 | text with only strippable characters around it trims to exactly that text |
| Strings.TrimAllTrimChars | Snug.class.php:170-175 | text made only of strippable characters trims to "" |
| Strings.TrimTrimmed | Snug.class.php:172-175 | trimming trimmed text changes nothing |
| Strings.TrimNewlineAround | Snug.class.php:174-175 | a line break before or after trimmed text is trimmed away |
| Strings.TrimIdempotent | Snug.class.php:172-175 | `trim(trim(s)) == trim(s)`, so the repeated trims of the body agree |
| Functions.AddKey | inc.functions.php:11-15 | the key maps to the value, every other key keeps its value, and the keys are the old ones plus the key |
| Functions.AddKeyIdempotent | inc.functions.php:11-15 | adding the same key and value twice is adding it once |
| Functions.AddKeyOverwrites | inc.functions.php:11-15 | a second value for a key replaces the first |
| Functions.AddKeyCommutes | inc.functions.php:11-15 | two different keys can be added in either order |
| Classify.ExtensionIff | Snug.class.php:293-309 | the lower-cased text after the last `.` is `ext` exactly when the lower-cased name is `ext` or ends in `.ext` |
| Classify.Extension | Snug.class.php:294-296 | `strtolower(end(explode('.', $file)))`; `Classify.ExtensionIff` says which names give which extension |
| Classify.ExtensionToSuffix | Snug.class.php:293-309 | a lower-cased name whose text after the last `.` is `ext` is `ext` itself or ends in `.ext` |
| Classify.SuffixToExtension | Snug.class.php:293-309 | a lower-cased name that is `ext` or ends in `.ext` has `ext` after its last `.` |
| Classify.IsAsset | Snug.class.php:293-297 | `isAsset`: the extension is one of `formatAssets`; `Classify.IsAssetIff` characterises it |
| Classify.IsPage | Snug.class.php:305-309 | `isPage`: the extension is one of `formatPages`; `Classify.IsPageIff` characterises it |
| Classify.IsAssetIff | Snug.class.php:293-297 | a request is an asset exactly when its name is `css` or ends in `.css`, in any case |
| Classify.IsPageIff | Snug.class.php:305-309 | a request is a page exactly when its name is `html` or ends in `.html`, in any case |
| Classify.ClassificationIgnoresCase | Snug.class.php:293-309 | names equal up to case are classified alike |
| Classify.AssetsAreNotPages | Snug.class.php:32-33 | no request is both an asset and a page |
| Classify.GetTemplateForPage | Snug.class.php:186-188 | the template path ends in `haml` |
| Classify.PageTemplateSwapsExtension | Snug.class.php:186-188 | for a page, the template is the views directory plus the URI with `html` swapped for `haml` |
| Classify.LessSourceFor | Snug.class.php:205 | the LESS path ends in `less` |
| Classify.AssetSourceSwapsExtension | Snug.class.php:205 | for an asset, the source is the assets directory plus the URI with `css` swapped for `less` |
| Classify.IsStaticPage | Snug.class.php:317-319 | `isStaticPage`: the URI's first character is not `_` and the page's template exists; see the two guard lemmas below |
| Classify.UnderscoreGuardSeesFirstCharOnly | Snug.class.php:317-319 | when the URI does not start with `_`, it is a static page exactly when its template exists |
| Classify.UnderscoreUriIsNotStatic | Snug.class.php:317-319 | a URI starting with `_` is never a static page |
| Posts.RequestLang | Snug.class.php:83 | the second `/`-segment of the URI, which holds no `/` |
| Posts.RequestName | Snug.class.php:83 | the third `/`-segment of the URI, which holds no `/` |
| Posts.PostId | Snug.class.php:71 | the id is the name's prefix up to the first `-` (or the whole name), without `-` |
| Posts.MetaPath | Snug.class.php:73 | the metadata file of a post id: `SNUG_POSTS . $id . '.json'`, as lines 73 and 155 build it |
| Posts.GetMeta | Snug.class.php:154-156 | `getMeta`: the decoded metadata file, read without checking that it exists |
| Posts.CheckPostAvailable | Snug.class.php:70-74 | a value is found only when `<id>.json` exists |
| Posts.PostUrl | Snug.class.php:60 | the canonical URL starts with `/` and ends in `html` |
| Posts.BuildPostURL | Snug.class.php:56-61 | `buildPostURL`: the canonical URL for the value stored under the id and language; `Posts.BuildPostURLUsesStoredValue` ties it to `checkPostAvailable` |
| Posts.PostUrlExample | Snug.class.php:59-60 | stored `31415-EN-lorem-ipsum.md` for `en` gives `/en/31415-lorem-ipsum.html` |
| Posts.BuildPostURLUsesStoredValue | Snug.class.php:56-61 | the canonical URL is built from the very value `checkPostAvailable` found |
| Posts.DoesPostNeedRedirect | Snug.class.php:82-93 | `doesPostNeedsRedirect`: 404, no redirect, or a redirect URL; `Posts.RedirectDecision` states when each happens |
| Posts.RedirectDecision | Snug.class.php:82-93 | 404 exactly when no truthy value is stored; no redirect exactly when the URI is the canonical URL; otherwise a redirect to the canonical URL |
| Posts.PostUrlSegments | Snug.class.php:60 | the canonical URL splits back into the language and one file name |
| Posts.SlugKeepsId | Snug.class.php:60 | a stored value starting with `<id>-` gives a slug starting with `<id>-` |
| Posts.PostUrlKeepsId | Snug.class.php:60 | the canonical URL names the same post id again |
| Posts.CanonicalUrlIsStable | Snug.class.php:82-93 | requesting the canonical URL of a post does not redirect, when the id holds no `-`, the language no `/`, and the stored value starts with `<id>-`, is at least three characters longer than the id and holds no `/` |
| Posts.RedirectIsFinal | Snug.class.php:245-249 | the target of a redirect does not redirect again, when the stored value starts with `<id>-`, is at least three characters longer than the id and holds no `/` |
| Posts.SplitHeader | Snug.class.php:169-172 | the header and the body are trimmed and the header holds no `)-->`; `Posts.HeaderIsBeforeFirstMarker`, `Posts.SecondMarkerEndsBody` and `Posts.MissingMarkerLeavesNoBody` fix its value for sources with one, two or no markers |
| Posts.SplitTitle | Snug.class.php:174-175 | the title and the text are trimmed, the title is one line, and with no line break the title is empty |
| Posts.TitleHasNoBreak | Snug.class.php:174 | the title piece, once trimmed, holds no line break |
| Posts.SplitPost | Snug.class.php:167-175 | the header, title and text cut from a post source; `Posts.SplitPostRoundTrip` is its inverse |
| Posts.PostData | Snug.class.php:173-175 | the post holds the title and the converted text, keeps every other field of a decodable header, and has no other key |
| Posts.PostSourcePath | Snug.class.php:167 | the file `getPost` reads: `SNUG_POSTS . '/' . $file` |
| Posts.GetPost | Snug.class.php:164-178 | `getPost`: the post data of the split source file; `Posts.PostData` says what they hold |
| Posts.HeaderEndAfter | Snug.class.php:169 | after a header free of `)-->`, the first `)-->` is right behind the header |
| Posts.SplitHeaderOf | Snug.class.php:169-172 | a source laid out as a 5-character opener, a header, `)-->` and a body splits back into that header and body, trimmed, when neither the header nor the body holds `)-->` |
| Posts.HeaderIsBeforeFirstMarker | Snug.class.php:169-172 | whatever follows it, the first `)-->` behind the opener ends the header, and the body is the trimmed text up to the next `)-->` |
| Posts.SecondMarkerEndsBody | Snug.class.php:169-172 | a second `)-->` cuts the body short: everything after it is dropped |
| Posts.MissingMarkerLeavesNoBody | Snug.class.php:169-172 | with no `)-->` behind the opener, the trimmed rest is the header and the body is "" |
| Posts.SplitTitleOf | Snug.class.php:174-175 | a body laid out as marker, title, line break, text splits back into that title and text |
| Posts.SplitPostRoundTrip | Snug.class.php:164-178 | a post source laid out as a 5-character opener, a trimmed header free of `)-->`, `)-->`, a title marker character that `trim` does not strip, a trimmed one-line title and a non-empty trimmed text splits back into exactly that header, title and text, provided the title line and text hold no `)-->` |
| Layouts.GetLayoutFile | Snug.class.php:144-146 | a named layout's path ends in `.haml` and is never the default layout's path |
| Layouts.LayoutExists | Snug.class.php:327-329 | `layoutExists`: the named layout's file exists |
| Layouts.SelectLayout | Snug.class.php:123-128 | the named layout is used exactly when its name is truthy and its file exists; otherwise `_layout.haml` |
| Layouts.TitledData | Snug.class.php:118-121 | a truthy front-matter title is added as `title`; otherwise the data are unchanged |
| Layouts.PlanLayout | Snug.class.php:115-136 | the content is rendered with the titled data, and the layout gets those data plus `body`, which is always set |
| Layouts.GetInLayout | Snug.class.php:115-136 | `getInLayout`: the layout file rendered with the planned data; `Layouts.PlanLayout` says what goes in |
| Layouts.LayoutTitle | Snug.class.php:118-132 | the layout's `title` is the template's when truthy, else the caller's, and it is present exactly in those cases |
| Layouts.BuildPost | Snug.class.php:45-47 | `buildPost`: the post data rendered through `_post.haml` in its layout |
| Layouts.BuildPostKeepsFields | Snug.class.php:45-47 | a post's fields reach the layout, and its title does unless the post template sets one |
| Handlers.AssetOutcomes | Snug.class.php:197-221 | 400 exactly for non-`.css` names, 404 exactly for a missing LESS source, else the compiled source, cached at the requested URI; never a redirect |
| Handlers.PageOutcomes | Snug.class.php:229-237 | 400 exactly for non-`.html` names; a static page renders in its layout; a redirect exactly for a post at a non-canonical URL; only the requested URI is cached |
| Handlers.PostOutcomes | Snug.class.php:245-267 | handlePost never answers 400; it redirects exactly when the redirect decision moves the request, to that URL; only the requested URI is cached |
| Handlers.UnknownPageIsNotFound | Snug.class.php:245-254 | a page that is neither static nor a stored post is a 404 with the disk untouched |
| Handlers.CanonicalPostRenders | Snug.class.php:250-264 | a post at its canonical URL renders through the post template |
| Handlers.CanonicalPostStep | Snug.class.php:250-264 | a post at its canonical URL renders from its stored value and is cached under the request |
| Handlers.RenderedPostIsCanonical | Snug.class.php:245-261 | a rendered post was requested at its canonical URL |
| Handlers.AssetCacheIsNotSource | Snug.class.php:205-216 | the cached stylesheet never overwrites its LESS source |
| Handlers.AssetStep | Snug.class.php:197-221 | `handleAsset` as a step from the disk to an outcome and a new disk; `Handlers.AssetOutcomes` states its outcomes |
| Handlers.StaticPageStep | Snug.class.php:276-285 | `handleStaticPage` as a step: the template rendered in its layout with no data, cached at the URI |
| Handlers.PostStep | Snug.class.php:245-268 | `handlePost` as a step; `Handlers.PostOutcomes` states its outcomes |
| Handlers.PageStep | Snug.class.php:229-237 | `handlePage` as a step; `Handlers.PageOutcomes` states its outcomes |
| Handlers.SelectLayoutFrame | Snug.class.php:123-128 | writing any file whose path does not end in `haml` leaves the choice of layout unchanged |
| Handlers.PlanLayoutFrame | Snug.class.php:115-130 | writing any file whose path does not end in `haml` leaves the layout choice, the body and the layout data unchanged |
| Handlers.GetInLayoutFrame | Snug.class.php:115-136 | writing any file whose path does not end in `haml` leaves rendering in a layout unchanged |
| Handlers.RedirectFrame | Snug.class.php:70-93 | writing any file but the requested post's `<id>.json` leaves the redirect decision and the stored value unchanged |
| Handlers.GetPostFrame | Snug.class.php:164-178 | `getPost` reads only the post source |
| Handlers.BuildPostFrame | Snug.class.php:45-47 | writing any file whose path does not end in `haml` leaves `buildPost` unchanged |
| Handlers.PostSourceIsNotCache | Snug.class.php:167 | with the standard directories, a post source is never a cached page |
| Handlers.PostRenderFrame | Snug.class.php:256-261 | with the directories laid out as inc.config.php lays them out, writing the cache of a URI that starts with `/` and does not end in `haml` leaves the rendering of any post unchanged |
| Handlers.AssetIdempotent | Snug.class.php:197-221 | serving a stylesheet twice gives the same answer and the same disk |
| Handlers.StaticPageIdempotent | Snug.class.php:276-285 | serving a static page twice gives the same answer and the same disk |
| Handlers.PostIdempotentInStandardLayout | Snug.class.php:245-268 | serving a rendered post twice gives the same answer and the same disk |
| Handlers.RewriteSameContent | Snug.class.php:379-383 | writing a file with the content it already has changes nothing |
| Site.Snug.constructor | Snug.class.php:37 | a `Snug` starts on the given directories, engines and disk |
| Site.Snug.WriteFile | Snug.class.php:379-383 | the file at the path now has the content; no other file changes |
| Site.Snug.HandleAsset | Snug.class.php:197-221 | the answer and the new disk are those of `Handlers.AssetStep` |
| Site.Snug.HandlePage | Snug.class.php:229-237 | the answer and the new disk are those of `Handlers.PageStep` |
| Site.Snug.HandlePost | Snug.class.php:245-268 | the answer and the new disk are those of `Handlers.PostStep` |
| Site.Snug.HandleStaticPage | Snug.class.php:276-285 | the answer and the new disk are those of `Handlers.StaticPageStep` |

## Left out

- **Vendored engines.** HAML parsing and evaluation (`parseHAML`, `parseHAMLString`), lessc, Parsedown and FrontMatter are vendored code, and PHP's `json_decode` is a built-in. They are opaque parameters of the model. FrontMatter's `fetch` is the map lookup `Layouts.Fetch`, null when the field is absent.
- **Engine errors.** The model's engines are total. In the source, an engine that throws, such as lessc on malformed LESS, stops the handler before its cache write, and handle.asset.php answers with an error. Those failures and the error responses they cause are not modelled, so `Handlers.AssetOutcomes` always compiles and caches an existing source.
- **Engine inputs.** FrontMatter is given the template file's text. HamlPHP is given the layout file's text, and a missing layout reads as "". The engines' own file handling and the `tmp/` compiled-template cache are not modelled.
- **`error` and `redirect_to`.** `header()` output and `die()` become the `Error` and `Redirect` outcomes. The status line, the `X-Powered-By` header and the script exit are not modelled.
- **`writeFile`.** `fopen`/`fwrite`/`fclose` are modelled as one map update. Write failures and partial writes are not modelled.
- **Disk.** `file_get_contents` is `Env.ReadFile`: the stored text, or "" for a missing file.
- **Paths.** Paths are compared as text. `a//b` and `a/b`, `..` segments and directories are not normalised. A directory is not a file for `file_exists`.
- **JSON values.** Decoded JSON objects are string-to-string maps, and `$meta->$lang` is the lookup `Posts.MetaField`, null when the metadata did not decode or lacks the language. Non-string values, key order, and a header that decodes to a scalar (a PHP error on the next assignment) are not modelled.
- **handle.asset.php.** This entry point reads `$_SERVER['SCRIPT_URL']` and maps exceptions to `error`. It is not modelled; the request path is a parameter.
- **inc.config.php.** The directory constants are the `Config` parameter. `Env.StandardConfig` encodes the constants' relative layout: the asset, post and view directories under the document root; `SNUG_NAME` and `SNUG_VERSION` are not used.
- **PHP versions.** `substr` of a too-short string gives "", as in PHP 8. PHP 7's `false` is coerced to "" by every caller anyway.
- Posts.CanonicalUrlIsStable: holds only for a stored value that starts with `<id>-`, is at least three characters longer than the id and holds no `/`. Other stored values can send a canonical URL to a different id.
- Handlers.PostIdempotentInStandardLayout: holds only with the directories laid out as inc.config.php lays them out. With other directories, a cache write could overwrite a post source.
