# DataChild blog engine, modelled in Dafny

DataChild is a flat-file blog written in PHP. Every article is a Markdown file in the articles directory. Its first line is a `#` heading. A list of `* key: value` metadata lines follows (url, description, category, tags, published). The body starts after the first blank line.

This project models the core of that engine, `lib/app.php` and `lib/helpers.php`:

- **Request routing.** `load()` has three routes:
  - `/` lists every article.
  - `/<category>` lists the articles of a category or tag.
  - `/<a>/<b>` shows one post.
  - Any other endpoint is a 404 from `run()`.
- **Page title and template.** These come from `title()` and the template choice in `run()`.
- **Article records and their cache.** `get_article()` does three things:
  - It resolves a URL to the first file, in glob order, whose `url` field equals it.
  - It reuses a cached record when the record's `ts` equals the file's mtime.
  - Otherwise it extracts the fields, renders the body, post-processes the HTML and stores the record.
- **Listings.** `get_articles()` fetches every file, drops what the category filter rejects, and sorts what is left latest `publish` first.
- **Helpers.** `published()` turns an age into words, `tags()` turns a tag list into an English phrase, and `preg_fetch()` returns capture group 1 of the leftmost match.

## How the model is organised

Modules follow the layers of the program:

- `wrappers.dfy`: `Option`.
- `text.dfy`: the PHP string built-ins the core relies on.
  - `trim` with a character list.
  - `strpos`.
  - `implode`.
  - `explode`, and `str_replace` on top of it.
- `patterns.dfy`: each PCRE pattern the core passes to `preg_match`, `preg_replace` or `preg_split`, written out as a matcher over strings. Default PCRE semantics apply:
  - `.` stops at `"\n"`.
  - `^` anchors at index 0.
  - `$` also matches before a final `"\n"`.
  - Matching goes leftmost-first, and greedy quantifiers backtrack.
- `helpers.dfy`: `preg_fetch`, `published`, `tags`.
- `articles.dfy`: the data of the engine, and `get_article` / `get_articles` as functions over it.
  - The file system is a value `Env`. It holds the contents and mtime of each path, the glob listing in its order, and two functions passed in as parameters: `md5` (`hash`) and pandoc (`render`).
  - The cache directory is a `map` from md5 key to article record.
  - An article's `Fresh` / `Fetch` step, the foreach loop of `get_articles` as `Collect`, and the URL lookup as `GetArticleSpec`.
- `sorting.dfy`: the `usort` by `publish`, as an in-place insertion sort on an `array`, proved sorted and a permutation.
- `site.dfy`:
  - The routes, the views, the title and the template.
  - `class App`. Its `var cache` is the cache directory, which its methods update. `GetArticle` and the loop of `GetArticles` are proved to give the records and the cache of the specification functions in `articles.dfy`. The finished `GetArticles` is proved to return those records sorted latest first and permuted. `Load` and `Run` are proved against the per-route predicates `Lists` and `Loads` of `site.dfy`.

Some PHP behaviours are modelled on purpose:

- A string is falsy exactly when it is `""` or `"0"`:
  - `tags("0")` is null.
  - The category `/0` lists everything.
- `trim(null)` is `""`, so a missing field is an empty string.
- `strpos(...) == 0` is falsy, so an argument that starts with `.md` is looked up as a URL rather than read as a path.
- An anchored route regex also accepts one trailing newline, because `$` matches before a final newline. The category route then carries that newline into the title and the filter.
- The URL regex's greedy `.+` backtracks to the last `.` whose tail still matches.
- In the bold rewrite, `***(.+)***` is greedy up to the last `***` on the same line.
- A post route whose URL finds no article still yields a post view, with a null article and the default title. It is not a 404.

`loose ==` in the URL comparison is modelled as string equality. That is exact there: both sides are either empty or start with `/`, so neither is a numeric string.

## Model

| member | source | states |
|---|---|---|
| Text.Truthy | lib/app.php:74-75 | PHP's truth test on a string: false exactly for "" and "0"; FilterNone, ZeroIsCategory and Tags rely on it |
| Text.TrimChars | lib/app.php:38 | trim($s, $chars), which strips the charlist from both ends; its properties are TrimSlice, TrimIdempotent, TrimKeepsFirst and TrimNoStripChars |
| Text.Trim | lib/app.php:129-135 | trim($s) with PHP's default white-space list, the TrimChars lemmas taken with that list |
| Text.LeadEnd | lib/app.php:129 | trim's leading strip stops at the first character outside the charlist; everything before it is in the charlist |
| Text.TrailStart | lib/app.php:129 | trim's trailing strip stops after the last character outside the charlist; everything after it is in the charlist |
| Text.TrimSlice | lib/app.php:129-135 | trim returns a contiguous slice of its input; only charlist characters are dropped, at either end; a non-empty result neither starts nor ends with one |
| Text.TrimIdempotent | lib/app.php:129-135 | trimming a trimmed value changes nothing |
| Text.TrimKeepsFirst | lib/app.php:99 | a first character outside the charlist survives trim and stays first |
| Text.TrimNoStripChars | lib/app.php:38 | a string with no charlist character is returned unchanged |
| Text.StrPosFrom | lib/app.php:96 | the first occurrence of the needle at or after an offset; none exactly when no later position holds it |
| Text.StrPos | lib/app.php:96 | strpos returns the first occurrence, and false exactly when the needle does not occur |
| Text.NotContainsChar | lib/app.php:96 | a haystack lacking one of the needle's characters does not contain the needle |
| Text.Join | lib/helpers.php:62 | implode($sep, $xs); ExplodeJoin and EnglishListByImplode state its behaviour |
| Text.Explode | lib/app.php:126 | explode yields at least one piece, the first a prefix of the input |
| Text.ExplodeJoin | lib/app.php:126 | implode with the needle undoes explode: the pieces re-glued give the input back |
| Text.ReplaceAllIsExplodeJoin | lib/app.php:126 | str_replace equals explode on the needle followed by implode with the replacement |
| Text.ExplodePiecesFree | lib/app.php:126 | no piece of explode contains the needle |
| Text.ReplaceAllAbsent | lib/app.php:126 | str_replace with a needle that does not occur returns the subject unchanged |
| Text.ReplaceAll | lib/app.php:126 | str_replace over a string, every occurrence left to right; its properties are ReplaceAllIsExplodeJoin and ReplaceAllAbsent |
| Text.ExplodeLeftmost | lib/app.php:126 | explode splits at the leftmost occurrences: one piece only when the needle does not occur, and otherwise the first occurrence ends the first piece and what follows it is exploded in turn, so the pieces are determined even for a needle that overlaps itself |
| Text.ExplodeAtStrPos | lib/app.php:126 | strpos finds the needle exactly where explode's first piece ends, and finds nothing exactly when explode gives one piece |
| Patterns.LineEnd | lib/app.php:129 | `.+` stops at the first newline at or after the start, or at the end of the subject |
| Patterns.HeadingAt | lib/app.php:129 | `^#(.+)` can only match at index 0; its group is the non-empty rest of the first line |
| Patterns.MetaAt | lib/app.php:132-135 | a metadata pattern at i needs its literal prefix at i; its group is the non-empty rest of that line |
| Patterns.RunEnd | lib/app.php:99 | `[^\.\/]+` extends to the first '.' or '/' (or the end) |
| Patterns.UrlTail | lib/app.php:99 | after a chosen '.', the url pattern's tail needs a run without '.' or '/', ending in a '/' followed by a character that is not a newline |
| Patterns.LastSome | lib/app.php:99 | the last index of a window whose entry is present, none exactly when no entry in the window is |
| Patterns.UrlDot | lib/app.php:99 | the '.' the url pattern settles on is followed, after its run, by a '/' and a non-newline |
| Patterns.UrlDotLast | lib/app.php:99 | greedy `.+` backtracking settles on the last '.' in range whose tail matches; no match exactly when no '.' has a matching tail |
| Patterns.UrlAt | lib/app.php:99 | a url match at i has the literal prefix at i and a group of at least two characters, starting with '/' and running to the end of the line |
| Patterns.BlankLineEnd | lib/app.php:120 | `\r?\n\r?\n` at i ends right after a newline, at least two characters on |
| Patterns.IsBlankLine | lib/app.php:120 | the four spellings of a blank line that `\r?\n\r?\n` accepts, the separators BodyAfterFirstBlank covers |
| Patterns.SeparatorMatches | lib/app.php:120 | at a blank line written in any of its four spellings, the body pattern matches and its group is all that follows |
| Patterns.EarlyBlank | lib/app.php:120 | inside a head with no blank line, no attempt matches, except one at a final '\r' before an LF-led separator, which ends where the separator ends |
| Patterns.BodyAt | lib/app.php:120 | with `s` and `m`, the body group is non-empty and runs to the end of the subject |
| Patterns.MatchAt | lib/helpers.php:67 | the group of a match at a position lies inside the subject |
| Patterns.FirstSome | lib/helpers.php:67 | a position at or after i whose attempt succeeded; that no earlier attempt did is FirstSomeFirst |
| Patterns.FirstSomeFirst | lib/helpers.php:67 | every attempt before that position failed, and none is found only when every attempt failed |
| Patterns.PregMatch | lib/helpers.php:67 | preg_match's group lies inside the subject |
| Patterns.PregMatchLeftmost | lib/helpers.php:67 | preg_match reports the leftmost position that matches, and fails exactly when no position matches |
| Patterns.HeadingOnlyAtStart | lib/app.php:129 | the title pattern matches exactly when the file starts with '#' followed by something other than a newline; the group is the rest of the first line |
| Patterns.UrlMatchShape | lib/app.php:99 | a url match is at least two characters long and starts with '/' |
| Patterns.MetaMissing | lib/app.php:132-135 | without a `* key: ` line the metadata pattern does not match |
| Patterns.BodyAfterFirstBlank | lib/app.php:120 | for a head with no blank line in it, the body group is exactly what follows the first blank line, whether written `\n\n`, `\r\n\n`, `\n\r\n` or `\r\n\r\n` |
| Patterns.LastOccurrence | lib/app.php:125 | the last occurrence of a needle in a window, none exactly when it does not occur there |
| Patterns.BoldClose | lib/app.php:125 | the closing `***` chosen by greedy `.+` is at least one character on and on the same line |
| Patterns.BoldFrom | lib/app.php:125 | preg_replace of `***(.+)***` by `<b>$1</b>` from an index on; its properties are BoldClose and BoldFromAbsent |
| Patterns.Embolden | lib/app.php:125 | the bold rewrite over the whole HTML; its properties are EmboldenAbsent and EmboldenSpan |
| Patterns.BoldFromAbsent | lib/app.php:125 | without `***` the rewrite of a suffix copies it |
| Patterns.EmboldenAbsent | lib/app.php:125 | without `***` the bold rewrite is the identity |
| Patterns.EmboldenSpan | lib/app.php:125 | `***x***`, with x one non-empty line, becomes `<b>x</b>` |
| Patterns.SplitRaw | lib/app.php:77 | splitting on ',' and ';' yields one piece more than there are separators, none holding a separator |
| Patterns.SplitTags | lib/app.php:77 | preg_split('/\s*[,;]\s*/', ...), the split of a tag list; its properties are SplitTagsShape and SplitTagsJoin |
| Patterns.SplitTagsShape | lib/app.php:77 | preg_split on `\s*[,;]\s*` yields one tag more than there are separators, none holding a separator |
| Patterns.SplitTagsJoin | lib/app.php:77 | splitting tags written as "a, b, c" gives the tags back, for tags without separators or edge whitespace |
| Helpers.PregFetch | lib/helpers.php:66-70 | preg_fetch: group 1 of preg_match, or null; PregFetchLeftmost states which match that is |
| Helpers.PregFetchLeftmost | lib/helpers.php:66-70 | preg_fetch is null exactly when no position matches, otherwise group 1 of the leftmost match |
| Helpers.Published | lib/helpers.php:3-45 | "today" exactly when the age is not positive, "years ago" exactly beyond 800 days, and always one of the twelve labels |
| Helpers.FirstThreshold | lib/helpers.php:12-41 | the first rung of the ladder whose day bound the age does not exceed |
| Helpers.LadderLow | lib/helpers.php:12-26 | an age between two of the first five day bounds gets the label of its rung |
| Helpers.LadderHigh | lib/helpers.php:27-44 | an age above the fifth day bound gets the label of its rung, "years ago" beyond 800 days |
| Helpers.Rung | lib/helpers.php:9-44 | the index of the label, within the twelve |
| Helpers.PublishedByLadder | lib/helpers.php:9-44 | the if/else chain agrees with the table of thresholds: the label is that of the first bound not exceeded |
| Helpers.PublishedMonotone | lib/helpers.php:9-44 | an older timestamp never gets a more recent label |
| Helpers.Linked | lib/helpers.php:52-56 | linking keeps the number and order of the tags and wraps each in its own `/tag` anchor |
| Helpers.LinkTag | lib/helpers.php:54 | the anchor `<a href="/t">t</a>` that a linked tag becomes; Linked and LinkedKeepsCount use it |
| Helpers.EnglishList | lib/helpers.php:58-63 | the phrase tags() builds from its tag list; its properties are EnglishListSingle and EnglishListByImplode |
| Helpers.EnglishListSingle | lib/helpers.php:58-63 | a single tag is printed without " and " |
| Helpers.EnglishListByImplode | lib/helpers.php:58-63 | several tags: implode of all but the last with `</b>, <b>#`, then " and " and the popped last tag |
| Helpers.Tags | lib/helpers.php:48-64 | null for a falsy tag string; otherwise the English list of the (optionally linked) split tags |
| Helpers.LinkedKeepsCount | lib/helpers.php:50-56 | the linked list has one entry per separator plus one, each the link of the matching tag |
| Articles.IsPathArg | lib/app.php:96 | get_article's test for a path argument: ".md" occurs, and not first at index 0, because strpos()'s 0 is falsy; PostRouteIsUrl and GetArticleSpec use it |
| Articles.Field | lib/app.php:129-135 | trim(preg_fetch($p, $md)), where a null match becomes ""; TitleOnlyFromStart, MissingFieldIsEmpty and BodyIsAfterFirstBlank state what it gives |
| Articles.UrlOf | lib/app.php:99 | the trimmed url field of a file; UrlShape states its shape |
| Articles.UrlShape | lib/app.php:99 | the url field is "" when the pattern misses, otherwise it starts with '/' |
| Articles.Build | lib/app.php:119-137 | the built record carries the file's mtime as ts and the file's url field |
| Articles.TitleOnlyFromStart | lib/app.php:129 | the title is the trimmed rest of the first line when the file starts with '#', otherwise "" |
| Articles.MissingFieldIsEmpty | lib/app.php:132-135 | a missing metadata line yields "" |
| Articles.BodyIsAfterFirstBlank | lib/app.php:120 | the body handed to pandoc is the trimmed text after the first blank line, in LF and CRLF files alike |
| Articles.PostProcess | lib/app.php:125-126 | the two rewrites after pandoc, in order; its properties are PostProcessDash and PostProcessBold |
| Articles.PostProcessDash | lib/app.php:125-126 | the dash rewrite replaces each `</code> -` and re-joining with the needle restores the emboldened HTML |
| Articles.PostProcessBold | lib/app.php:125-126 | post-processing turns `***x***` into `<b>x</b>` |
| Articles.Fresh | lib/app.php:110-118 | get_article's cache hit test: the md5 key is stored and its ts equals the file's mtime; CacheRule, FetchTwice and FetchAfterTouch rest on it |
| Articles.Fetch | lib/app.php:110-140 | pandoc runs exactly when the cached record is missing or stale; afterwards the key holds the returned, fresh record |
| Articles.FetchFrame | lib/app.php:110-139 | the step writes only the file's own md5 key: every other entry is kept and no other entry appears |
| Articles.FetchKeepsOther | lib/app.php:110-139 | fetching one file leaves the fresh entry of a file with another key untouched |
| Articles.CacheRule | lib/app.php:111-118 | a hit returns the stored record with the cache untouched; a miss returns and stores the freshly built one |
| Articles.FetchTwice | lib/app.php:110-140 | asking again for an unchanged file renders nothing and returns the same record |
| Articles.FetchAfterTouch | lib/app.php:113 | a file whose mtime changed is rendered again and stamped with the new mtime |
| Articles.Collect | lib/app.php:71-86 | the loop keeps at most one record and renders at most once per file |
| Articles.Keep | lib/app.php:74-83 | the filter test of get_articles: no filter or a falsy one keeps everything, otherwise the category must equal it or one of the split tags must; its properties are Filter, FilterNone and CategoryPageMembers |
| Articles.Filter | lib/app.php:74-83 | the kept records are exactly those with the filter's category or tag |
| Articles.FilterNone | lib/app.php:74-75 | with no filter, or a falsy one, nothing is dropped |
| Articles.CollectAll | lib/app.php:69-86 | with no filter the listing has one record per file |
| Articles.CollectIsFilter | lib/app.php:71-86 | filtering inside the loop equals listing everything and filtering afterwards, with the same cache and renders |
| Articles.CollectStores | lib/app.php:71-73 | after a listing each file's cache entry is fresh and holds the record listed for it |
| Articles.StoredSnoc | lib/app.php:71-73 | fetching one more file with a new key keeps every stored entry and adds its own |
| Articles.CollectTwice | lib/app.php:69-86 | listing again right away renders nothing and yields the same records |
| Articles.ReplayHits | lib/app.php:111-116 | when all entries are fresh, the loop returns the cached records and renders nothing |
| Articles.FindFrom | lib/app.php:97-103 | the first index at or after i holding the URL; none exactly when no later entry does |
| Articles.GetArticleSpec | lib/app.php:95-143 | get_article on a path or a URL: the record or null, the new cache, whether pandoc ran; LookupByUrl and LookupNeedsSlash state its behaviour, and App.GetArticle is proved equal to it |
| Articles.LookupByUrl | lib/app.php:96-108 | a URL gives null, with the cache untouched, exactly when no file's url equals it; otherwise the record of the first such file in glob order |
| Articles.LookupNeedsSlash | lib/app.php:96-106 | a non-empty URL that does not start with '/' finds no article |
| Articles.LookupEmptyUrl | lib/app.php:96-106 | the empty string is looked up as a URL, and finds an article exactly when some listed file has no url line, because that file's url field is "" too |
| Sorting.StrLess | lib/app.php:89 | PHP's `<` on two non-numeric strings, byte by byte; its properties are StrLessIrreflexive, StrLessTransitive, StrLessTotal and StrLessAsymmetric |
| Sorting.StrLessIrreflexive | lib/app.php:89 | no publish string sorts before itself |
| Sorting.StrLessTransitive | lib/app.php:89 | string order is transitive |
| Sorting.StrLessTotal | lib/app.php:89 | of two different strings one sorts before the other |
| Sorting.StrLessAsymmetric | lib/app.php:89 | two strings never sort before each other |
| Sorting.NotBefore | lib/app.php:88-90 | the comparator of the usort read as "not earlier than"; NotBeforeTransitive and NotBeforeTotal are its properties |
| Sorting.SortedByPublish | lib/app.php:88-92 | the order usort leaves: no article is followed by one with a later publish string; Insert and SortByPublish establish it |
| Sorting.NotBeforeTransitive | lib/app.php:88-90 | "not earlier than" is transitive on articles |
| Sorting.NotBeforeTotal | lib/app.php:88-90 | of two articles one is not earlier than the other |
| Sorting.Swap | lib/app.php:88-90 | exchanges two neighbours inside the prefix a pass works on and leaves the rest of the array as it was |
| Sorting.SwapPermutes | lib/app.php:88-90 | exchanging two neighbours keeps the multiset of articles |
| Sorting.SiftStep | lib/app.php:88-90 | moving the article in motion left past one it should precede keeps the others in order and keeps it not earlier than every article behind it |
| Sorting.SiftDone | lib/app.php:88-90 | once that article is not earlier than its left neighbour, the whole prefix is latest first |
| Sorting.JoinPermutation | lib/app.php:88-90 | a prefix permuted and a suffix left alone make a permutation of the whole array |
| Sorting.Insert | lib/app.php:88-90 | one insertion pass extends the latest-first prefix by one element, permutes `a[..i + 1]` and leaves `a[i + 1..]` as it was |
| Sorting.SortByPublish | lib/app.php:88-90 | usort leaves the array latest publish first and a permutation of what it was |
| Site.CategoryRoute | lib/app.php:35 | preg_match('/^\/[a-z\-0-9 ]+$/'), including the trailing newline `$` allows; CategoryRouteFilter and CategoryRouteNewline state it |
| Site.PostRoute | lib/app.php:42 | preg_match('/^\/[a-z\-0-9]+\/[a-z\-0-9]+$/'), including the trailing newline `$` allows; PostRouteOf and PostBodyNoDot state it |
| Site.RouteOf | lib/app.php:27-48 | load()'s choice of route: "/", then the category route, then the post route, else none; its properties are CategoryRouteFilter, CategoryRouteNewline, PostRouteOf, RoutesExclusive and ZeroIsCategory |
| Site.CategoryRouteFilter | lib/app.php:35-40 | "/" and a segment of `[a-z\-0-9 ]` takes the category route, titled by the endpoint and filtered by the segment |
| Site.CategoryRouteNewline | lib/app.php:35-38 | a trailing newline is accepted by the category route and kept in both title and filter |
| Site.PostRouteOf | lib/app.php:42-46 | "/", a slug, "/", a slug takes the post route |
| Site.BodiesEndInClass | lib/app.php:35-42 | neither route's body ends in a newline, so a newline can only be the one `$` allows |
| Site.RoutesExclusive | lib/app.php:35-42 | no endpoint matches both the category and the post regex |
| Site.PostBodyNoDot | lib/app.php:42 | a post endpoint contains no '.' |
| Site.PostRouteIsUrl | lib/app.php:42-45 | a post endpoint never contains ".md", so get_article looks it up as a URL |
| Site.Title | lib/app.php:53-64 | the title ends in " - DataChild" after the article's title, else the category, else the default text |
| Site.ViewName | lib/app.php:31-44 | the view name each branch of load() sets: "default", "cat" or "post"; Template uses it for a POST |
| Site.Template | lib/app.php:19-21 | a POST gets the view's own template; otherwise the layout, or its body-only variant |
| Site.ZeroIsCategory | lib/app.php:35-38 | "/0" takes the category route with filter "0" |
| Site.FalsyFilterListsAll | lib/app.php:74-75 | a falsy filter lists exactly what the home page lists |
| Site.CategoryPageMembers | lib/app.php:74-83 | a category page shows only articles of that category or tagged with it |
| Site.HomePageCount | lib/app.php:29-33 | the home page shows one article per file |
| Site.CollectStep | lib/app.php:71-86 | one more turn of the foreach loop is one more path of Collect |
| Site.Lists | lib/app.php:69-93 | what get_articles returns: the loop's cache, and exactly the kept records, latest first; App.GetArticles is proved to meet it |
| Site.Loads | lib/app.php:27-48 | what load() does for an endpoint: the view and cache of its route, or null with the cache unchanged; App.Load is proved to meet it |
| Site.App.FindPath | lib/app.php:97-104 | the foreach loop finds the first listed file whose url equals the argument, or none |
| Site.App.Refresh | lib/app.php:110-140 | the cache step reuses a fresh record or renders and stores one, as Fetch states |
| Site.App.GetArticle | lib/app.php:95-143 | get_article returns and leaves in the cache what GetArticleSpec states: a path is fetched; a URL goes to its first file, or null |
| Site.App.CollectKept | lib/app.php:71-86 | the loop keeps exactly Collect's records and leaves Collect's cache |
| Site.App.GetArticles | lib/app.php:69-93 | the list is latest first and a permutation of the kept records, and the cache is the loop's |
| Site.App.Load | lib/app.php:27-48 | each route gives its view with the articles or article of the specification; no route gives null with the cache unchanged |
| Site.App.Run | lib/app.php:12-25 | a 404 exactly when no route matches; otherwise the page has the loaded view, its title and its template |

## Left out

- The constructor's `parse_url($_SERVER['REQUEST_URI'])` and `urldecode` in `load()`: the endpoint arrives already decoded (`Site.App.Load` takes it as a parameter).
- The HTTP headers and the `include` of the template in `run()`: `Run` returns the 404 status, the template name and the title instead of sending them.
- File I/O is the `Env` value: `glob` is the listing, `file_get_contents` and `filemtime` read the files map, and `file_put_contents` is the map update. A cache file that went missing, or a JSON encoding that failed, is not modelled. A cached record is assumed to decode to what was stored.
- `md5` is the `hash` function of `Env`. Distinct keys for the listed paths are a precondition, `KeysDistinct`, where a lemma needs them.
- pandoc is the `render` function of `Env`: shell escaping and the output of the external process are not modelled.
- `published()` takes its age in seconds as input: `strtotime` and `date` (the clock and date parsing) are not modelled.
- Sorting.SortByPublish: it states the latest-first order and a permutation, but not which order records with equal `publish` end up in. Since PHP 8.0, `usort` is stable and the boolean comparator is read as a three-way one, so such records keep their glob order; the model does not state that.
- Sorting.StrLess: it compares code points. It models PHP's `<` only for strings that are not both numeric, which holds for ISO dates such as `2023-01-05`. Numeric `publish` strings would be compared as numbers, and that is not modelled.
- Articles.Keep: the category comparison `!=` and `in_array` are loose in PHP, so numeric strings such as "1" and "01" would compare equal there. The model compares strings exactly.
- The `u` flag of the body pattern is not modelled: the pattern fails on invalid UTF-8.
- The views (`views/*.phtml`) and the scripts directory are not part of this model.
