/**
 * The data layer of lib/app.php as values: the article record, metadata
 * extraction, the post-processing of rendered HTML, one step of the
 * mtime-keyed cache, the listing fold, and the lookup by canonical URL.
 * The filesystem, glob(), md5() and pandoc enter through `Env`.
 */
module Articles {
  import opened Wrappers
  import opened Text
  import opened Patterns
  import opened Helpers

  type Path = string
  type Key = string

  /** A content file: what file_get_contents and filemtime return for it. */
  datatype File = File(contents: string, mtime: int)

  /** The record get_article returns and the cache stores (JSON-encoded) per article. */
  datatype Article = Article(
    title: string, html: string, url: string, description: string,
    category: string, tags: string, publish: string, ts: int)

  /** The cache directory: md5 of the source path to the stored record. */
  type Cache = map<Key, Article>

  /**
   * What the code reads from outside: the content files, the order in which
   * glob() lists the markdown files of the articles directory, md5() and the pandoc conversion.
   */
  datatype Env = Env(files: map<Path, File>, listing: seq<Path>, hash: Path -> Key, render: string -> string)

  /**
   * `!strpos($url_or_md, '.md')` is false: ".md" occurs, and not first at
   * index 0 (strpos returning 0 is falsy, so such a string is taken for a URL).
   */
  predicate IsPathArg(x: string)
  {
    match StrPos(x, ".md")
    case Some(i) => i != 0
    case None => false
  }

  /** Every path of `paths` names an existing file. */
  predicate AllFiles(env: Env, paths: seq<Path>)
  {
    forall i :: 0 <= i < |paths| ==> paths[i] in env.files
  }

  /** Every listed file exists, and its path is taken for a path, not a URL (it lies under a directory and ends in ".md"). */
  predicate ValidEnv(env: Env)
  {
    AllFiles(env, env.listing) && forall i :: 0 <= i < |env.listing| ==> IsPathArg(env.listing[i])
  }

  /** trim(preg_fetch($p, $md)): a missing match is null, which trim() turns into "". */
  function Field(p: Pattern, md: string): string
  {
    Trim(PregFetch(p, md).GetOr(""))
  }

  /** The canonical URL of a file: the trimmed url capture, "" when the url line is missing. */
  function UrlOf(md: string): string
  {
    Field(UrlLine, md)
  }

  /** Every extracted url is empty or a path starting with '/'; it is empty only when the url line is missing. */
  lemma UrlShape(md: string)
    ensures PregFetch(UrlLine, md).None? ==> UrlOf(md) == ""
    ensures PregFetch(UrlLine, md).Some? ==> |UrlOf(md)| > 0 && UrlOf(md)[0] == '/'
  {
    if PregFetch(UrlLine, md).Some? {
      UrlMatchShape(md);
      var g := PregMatch(UrlLine, md).value;
      var c := md[g.start..g.end];
      assert PregFetch(UrlLine, md) == Some(c);
      assert c[0] == '/';
      TrimKeepsFirst(c, PhpWhitespace);
    }
  }

  /** The two rewrites after pandoc, in order: `***x***` to `<b>x</b>`, then "</code> -" to "</code> &mdash; ". */
  function PostProcess(html: string): string
  {
    ReplaceAll(Embolden(html), "</code> -", "</code> &mdash; ")
  }

  /** The record built on a cache miss, stamped with the file's mtime. */
  function Build(env: Env, f: File): (a: Article)
    ensures a.ts == f.mtime
    ensures a.url == UrlOf(f.contents)
  {
    var md := f.contents;
    Article(
      Field(Heading, md),
      PostProcess(env.render(Field(BodyAfterBlank, md))),
      UrlOf(md),
      Field(MetaLine("description"), md),
      Field(MetaLine("category"), md),
      Field(MetaLine("tags"), md),
      Field(MetaLine("published"), md),
      f.mtime)
  }

  /** The title comes only from a '#' at the very start of the file. */
  lemma TitleOnlyFromStart(md: string)
    ensures Field(Heading, md) == if |md| >= 2 && md[0] == '#' && md[1] != '\n' then Trim(md[1..LineEnd(md, 1)]) else ""
  {
    HeadingOnlyAtStart(md);
  }

  /** A metadata line that is missing leaves its field empty. */
  lemma MissingFieldIsEmpty(md: string, key: string)
    requires !Contains(md, MetaPrefix(key))
    ensures Field(MetaLine(key), md) == ""
  {
    MetaMissing(md, key);
  }

  /** pandoc gets the trimmed text after the first blank line, LF or CRLF. */
  lemma BodyIsAfterFirstBlank(head: string, sep: string, rest: string)
    requires IsBlankLine(sep)
    requires !Contains(head, "\n\n") && !Contains(head, "\n\r\n")
    requires |head| == 0 || head[|head| - 1] != '\n'
    requires |head| < 2 || head[|head| - 2..] != "\n\r"
    requires |rest| > 0
    ensures Field(BodyAfterBlank, head + sep + rest) == Trim(rest)
  {
    BodyAfterFirstBlank(head, sep, rest);
    SuffixSlice(head + sep, rest);
    assert PregFetch(BodyAfterBlank, head + sep + rest) == Some(rest);
  }

  /** Cutting a concatenation after its first part leaves the second. */
  lemma SuffixSlice(a: string, b: string)
    ensures (a + b)[|a|..|a| + |b|] == b
  {
    var s := a + b;
    forall k | 0 <= k < |b| ensures s[|a|..|a| + |b|][k] == b[k] {
      assert s[|a| + k] == b[k];
    }
  }

  /** The dash rewrite is explode and implode: it changes exactly the occurrences, left to right. */
  lemma PostProcessDash(html: string)
    ensures PostProcess(html) == Join(Explode(Embolden(html), "</code> -"), "</code> &mdash; ")
    ensures Join(Explode(Embolden(html), "</code> -"), "</code> -") == Embolden(html)
  {
    ReplaceAllIsExplodeJoin(Embolden(html), "</code> -", "</code> &mdash; ");
    ExplodeJoin(Embolden(html), "</code> -");
  }

  /** A one-line `***x***` comes out as `<b>x</b>` when the dash rewrite has nothing to do. */
  lemma PostProcessBold(x: string)
    requires |x| >= 1 && forall k :: 0 <= k < |x| ==> x[k] != '\n'
    requires !Contains("<b>" + x + "</b>", "</code> -")
    ensures PostProcess(Stars + x + Stars) == "<b>" + x + "</b>"
  {
    EmboldenSpan(x);
    ReplaceAllAbsent("<b>" + x + "</b>", "</code> -", "</code> &mdash; ");
  }

  // ---------------------------------------------------------------------
  // The cache step of get_article for one source path

  /** The result of one get_article on a path: the record, the new cache, and whether pandoc ran. */
  datatype Fetched = Fetched(article: Article, cache: Cache, rendered: bool)

  /** The cache entry for p exists and is stamped with p's current mtime. */
  predicate Fresh(env: Env, cache: Cache, p: Path)
    requires p in env.files
  {
    env.hash(p) in cache && cache[env.hash(p)].ts == env.files[p].mtime
  }

  /**
   * The cache rule: a stored record whose ts equals the file's mtime is
   * returned as it is; otherwise the file is rendered and its record
   * overwrites the entry under md5(path).
   */
  function Fetch(env: Env, cache: Cache, p: Path): (r: Fetched)
    requires p in env.files
    ensures r.rendered <==> !Fresh(env, cache, p)
    ensures Fresh(env, r.cache, p) && r.cache[env.hash(p)] == r.article
  {
    var key := env.hash(p);
    if key in cache && cache[key].ts == env.files[p].mtime then Fetched(cache[key], cache, false)
    else
      var a := Build(env, env.files[p]);
      Fetched(a, cache[key := a], true)
  }

  /** The step writes at most the file's own key: every other entry is kept, and no other entry appears. */
  lemma FetchFrame(env: Env, cache: Cache, p: Path)
    requires p in env.files
    ensures forall k :: k in Fetch(env, cache, p).cache <==> k in cache || k == env.hash(p)
    ensures forall k :: k in cache && k != env.hash(p) ==> Fetch(env, cache, p).cache[k] == cache[k]
  {
  }

  /** A hit returns the stored record unchanged and writes nothing; a miss stores the freshly built record. */
  lemma CacheRule(env: Env, cache: Cache, p: Path)
    requires p in env.files
    ensures Fresh(env, cache, p) ==> Fetch(env, cache, p) == Fetched(cache[env.hash(p)], cache, false)
    ensures !Fresh(env, cache, p) ==> Fetch(env, cache, p) == Fetched(Build(env, env.files[p]), cache[env.hash(p) := Build(env, env.files[p])], true)
  {
  }

  /** Asking twice for an unchanged file renders at most once and returns the same record. */
  lemma FetchTwice(env: Env, cache: Cache, p: Path)
    requires p in env.files
    ensures var first := Fetch(env, cache, p);
            Fetch(env, first.cache, p) == Fetched(first.article, first.cache, false)
  {
  }

  /** Touching the file (a new mtime) forces a re-render whose record carries the new mtime. */
  lemma FetchAfterTouch(env: Env, cache: Cache, p: Path, contents: string, mtime: int)
    requires p in env.files && mtime != env.files[p].mtime
    ensures var first := Fetch(env, cache, p);
            var touched := env.(files := env.files[p := File(contents, mtime)]);
            var second := Fetch(touched, first.cache, p);
            second.rendered && second.article == Build(touched, File(contents, mtime)) && second.article.ts == mtime
  {
  }

  // ---------------------------------------------------------------------
  // Listing: the foreach of get_articles over the glob order

  /** Whether the filter of get_articles keeps an article. */
  predicate Keep(a: Article, filter: Option<string>)
  {
    // `if ($filter)`, `if ($filter['category'])`, then the category or one of the tags must equal it
    filter.None? || !Truthy(filter.value) || a.category == filter.value || filter.value in SplitTags(a.tags)
  }

  /** The kept records, the cache after the loop, and the number of pandoc runs. */
  datatype Listed = Listed(articles: seq<Article>, cache: Cache, renders: nat)

  /** The foreach loop of get_articles: fetch each path in turn, threading the cache, and append the kept ones. */
  function Collect(env: Env, cache: Cache, paths: seq<Path>, filter: Option<string>): (r: Listed)
    requires AllFiles(env, paths)
    ensures |r.articles| <= |paths| && r.renders <= |paths|
    decreases |paths|
  {
    if |paths| == 0 then Listed([], cache, 0)
    else
      var prev := Collect(env, cache, paths[..|paths| - 1], filter);
      var f := Fetch(env, prev.cache, paths[|paths| - 1]);
      Listed(if Keep(f.article, filter) then prev.articles + [f.article] else prev.articles,
             f.cache,
             prev.renders + (if f.rendered then 1 else 0))
  }

  /** The records of xs that the filter keeps, in their order. */
  function Filter(xs: seq<Article>, filter: Option<string>): (r: seq<Article>)
    ensures forall x :: x in r <==> x in xs && Keep(x, filter)
    ensures |r| <= |xs|
  {
    if |xs| == 0 then []
    else Filter(xs[..|xs| - 1], filter) + (if Keep(xs[|xs| - 1], filter) then [xs[|xs| - 1]] else [])
  }

  /** Without a filter, or with a falsy one, nothing is dropped. */
  lemma {:induction false} FilterNone(xs: seq<Article>, filter: Option<string>)
    requires filter.None? || !Truthy(filter.value)
    ensures Filter(xs, filter) == xs
    decreases |xs|
  {
    if |xs| > 0 {
      var init, last := xs[..|xs| - 1], xs[|xs| - 1];
      FilterNone(init, filter);
      FilterKeepsLast(xs, filter);
      assert init + [last] == xs;
    }
  }

  /** A last record that the filter keeps is appended to the filtered prefix. */
  lemma FilterKeepsLast(xs: seq<Article>, filter: Option<string>)
    requires |xs| > 0 && Keep(xs[|xs| - 1], filter)
    ensures Filter(xs, filter) == Filter(xs[..|xs| - 1], filter) + [xs[|xs| - 1]]
  {
  }

  /** With no filter every listed path yields one record. */
  lemma {:induction false} CollectAll(env: Env, cache: Cache, paths: seq<Path>)
    requires AllFiles(env, paths)
    ensures |Collect(env, cache, paths, None).articles| == |paths|
    decreases |paths|
  {
    if |paths| > 0 {
      CollectAll(env, cache, paths[..|paths| - 1]);
    }
  }

  /**
   * Filtering while fetching is fetching everything and filtering afterwards:
   * the same records in the same order, and the same cache and renders,
   * since every article is fetched whether it is kept or not.
   */
  lemma {:induction false} CollectIsFilter(env: Env, cache: Cache, paths: seq<Path>, filter: Option<string>)
    requires AllFiles(env, paths)
    ensures var all := Collect(env, cache, paths, None);
            Collect(env, cache, paths, filter) == Listed(Filter(all.articles, filter), all.cache, all.renders)
    decreases |paths|
  {
    if |paths| > 0 {
      var prefix := paths[..|paths| - 1];
      CollectIsFilter(env, cache, prefix, filter);
      var all := Collect(env, cache, paths, None);
      var prev := Collect(env, cache, prefix, None);
      var f := Fetch(env, prev.cache, paths[|paths| - 1]);
      assert all.articles == prev.articles + [f.article];
      assert all.articles[..|all.articles| - 1] == prev.articles;
      assert Filter(all.articles, filter) == Filter(prev.articles, filter) + (if Keep(f.article, filter) then [f.article] else []);
    }
  }

  /** Fetching one file leaves the fresh entry of a file with another key as it was. */
  lemma FetchKeepsOther(env: Env, cache: Cache, p: Path, q: Path)
    requires p in env.files && q in env.files && env.hash(q) != env.hash(p) && Fresh(env, cache, q)
    ensures Fresh(env, Fetch(env, cache, p).cache, q)
    ensures Fetch(env, cache, p).cache[env.hash(q)] == cache[env.hash(q)]
  {
  }

  /** md5 gives different keys to the listed paths. */
  predicate KeysDistinct(env: Env, paths: seq<Path>)
  {
    forall i, j :: 0 <= i < j < |paths| ==> env.hash(paths[i]) != env.hash(paths[j])
  }

  /** Each path's cache entry is fresh and holds the record at the same position. */
  predicate Stored(env: Env, c: Cache, paths: seq<Path>, articles: seq<Article>)
    requires AllFiles(env, paths) && |articles| == |paths|
  {
    forall i :: 0 <= i < |paths| ==> Fresh(env, c, paths[i]) && c[env.hash(paths[i])] == articles[i]
  }

  /** After the loop, each path's entry holds the record returned for it, stamped with its mtime. */
  lemma {:induction false} CollectStores(env: Env, cache: Cache, paths: seq<Path>)
    requires AllFiles(env, paths) && KeysDistinct(env, paths)
    ensures |Collect(env, cache, paths, None).articles| == |paths|
    ensures Stored(env, Collect(env, cache, paths, None).cache, paths, Collect(env, cache, paths, None).articles)
    decreases |paths|
  {
    CollectAll(env, cache, paths);
    if |paths| > 0 {
      var n := |paths| - 1;
      var prefix := paths[..n];
      assert KeysDistinct(env, prefix) by {
        forall i, j | 0 <= i < j < n ensures env.hash(prefix[i]) != env.hash(prefix[j]) {
          assert prefix[i] == paths[i] && prefix[j] == paths[j];
        }
      }
      CollectStores(env, cache, prefix);
      var prev := Collect(env, cache, prefix, None);
      var f := Fetch(env, prev.cache, paths[n]);
      assert forall i :: 0 <= i < n ==> env.hash(prefix[i]) != env.hash(paths[n]);
      StoredSnoc(env, prev.cache, prefix, prev.articles, paths[n]);
      assert prefix + [paths[n]] == paths;
      var all := Collect(env, cache, paths, None);
      assert all.articles == prev.articles + [f.article] && all.cache == f.cache;
    }
  }

  /** Fetching one more file whose key is new keeps the stored entries and adds its own. */
  lemma StoredSnoc(env: Env, c: Cache, ps: seq<Path>, xs: seq<Article>, p: Path)
    requires AllFiles(env, ps) && |xs| == |ps| && p in env.files
    requires forall i :: 0 <= i < |ps| ==> env.hash(ps[i]) != env.hash(p)
    requires Stored(env, c, ps, xs)
    ensures AllFiles(env, ps + [p])
    ensures Stored(env, Fetch(env, c, p).cache, ps + [p], xs + [Fetch(env, c, p).article])
  {
    var f := Fetch(env, c, p);
    var qs := ps + [p];
    var ys := xs + [f.article];
    forall i | 0 <= i < |qs| ensures Fresh(env, f.cache, qs[i]) && f.cache[env.hash(qs[i])] == ys[i] {
      if i < |ps| {
        assert qs[i] == ps[i] && ys[i] == xs[i];
        FetchKeepsOther(env, c, p, ps[i]);
      }
    }
  }

  /**
   * Listing a second time over the cache the first listing left renders
   * nothing and gives the same records, provided md5 keeps the paths apart.
   */
  lemma {:induction false} CollectTwice(env: Env, cache: Cache, paths: seq<Path>)
    requires AllFiles(env, paths) && KeysDistinct(env, paths)
    ensures var first := Collect(env, cache, paths, None);
            Collect(env, first.cache, paths, None) == Listed(first.articles, first.cache, 0)
  {
    var first := Collect(env, cache, paths, None);
    CollectStores(env, cache, paths);
    CollectAll(env, cache, paths);
    ReplayHits(env, first.cache, paths, |paths|, first.articles);
    assert paths[..|paths|] == paths;
    assert first.articles[..|paths|] == first.articles;
  }

  /** Over a cache in which every path already has its fresh record, each fetch of a prefix is a hit. */
  lemma {:induction false} ReplayHits(env: Env, c: Cache, paths: seq<Path>, n: nat, articles: seq<Article>)
    requires AllFiles(env, paths) && n <= |paths| == |articles|
    requires Stored(env, c, paths, articles)
    ensures Collect(env, c, paths[..n], None) == Listed(articles[..n], c, 0)
    decreases n
  {
    if n > 0 {
      assert paths[..n][..n - 1] == paths[..n - 1];
      ReplayHits(env, c, paths, n - 1, articles);
      assert paths[..n][n - 1] == paths[n - 1];
      assert articles[..n - 1] + [articles[n - 1]] == articles[..n];
    }
  }

  // ---------------------------------------------------------------------
  // Lookup by canonical URL

  /** The url of every listed file, in glob order. */
  function Urls(env: Env): (us: seq<string>)
    requires AllFiles(env, env.listing)
    ensures |us| == |env.listing|
  {
    seq(|env.listing|, i requires 0 <= i < |env.listing| => UrlOf(env.files[env.listing[i]].contents))
  }

  /** The first index at or after i whose entry equals `x`. */
  function FindFrom(xs: seq<string>, x: string, i: nat): (r: Option<nat>)
    requires i <= |xs|
    ensures r.Some? ==> i <= r.value < |xs| && xs[r.value] == x
    ensures r.Some? ==> forall j :: i <= j < r.value ==> xs[j] != x
    ensures r.None? ==> forall j :: i <= j < |xs| ==> xs[j] != x
    decreases |xs| - i
  {
    if i == |xs| then None
    else if xs[i] == x then Some(i)
    else FindFrom(xs, x, i + 1)
  }

  /** The result of get_article($url_or_md): the record or null, the new cache, and whether pandoc ran. */
  datatype Lookup = Lookup(article: Option<Article>, cache: Cache, rendered: bool)

  /** get_article: a path goes straight to the cache step; a URL first picks the first file whose url matches. */
  function GetArticleSpec(env: Env, cache: Cache, x: string): Lookup
    requires AllFiles(env, env.listing) && (IsPathArg(x) ==> x in env.files)
  {
    if IsPathArg(x) then
      var f := Fetch(env, cache, x);
      Lookup(Some(f.article), f.cache, f.rendered)
    else
      match FindFrom(Urls(env), x, 0)
      case None => Lookup(None, cache, false)
      case Some(i) =>
        var f := Fetch(env, cache, env.listing[i]);
        Lookup(Some(f.article), f.cache, f.rendered)
  }

  /**
   * A URL gives null, with the cache untouched, exactly when no file's url
   * equals it; otherwise the record of the first such file in glob order.
   */
  lemma LookupByUrl(env: Env, cache: Cache, x: string)
    requires AllFiles(env, env.listing) && !IsPathArg(x)
    ensures var r := GetArticleSpec(env, cache, x);
            (r.article.None? <==> forall j :: 0 <= j < |env.listing| ==> Urls(env)[j] != x)
            && (r.article.None? ==> r.cache == cache && !r.rendered)
    ensures var r := GetArticleSpec(env, cache, x);
            r.article.Some? ==>
              exists i :: 0 <= i < |env.listing| && Urls(env)[i] == x && (forall j :: 0 <= j < i ==> Urls(env)[j] != x)
                && r == (var f := Fetch(env, cache, env.listing[i]); Lookup(Some(f.article), f.cache, f.rendered))
  {
    match FindFrom(Urls(env), x, 0) {
      case None =>
      case Some(i) =>
    }
  }

  /** A non-empty URL that does not start with '/' never finds an article, since every extracted url does. */
  lemma LookupNeedsSlash(env: Env, cache: Cache, x: string)
    requires AllFiles(env, env.listing) && !IsPathArg(x) && |x| > 0 && x[0] != '/'
    ensures GetArticleSpec(env, cache, x).article.None?
  {
    LookupByUrl(env, cache, x);
    forall j | 0 <= j < |env.listing| ensures Urls(env)[j] != x {
      UrlShape(env.files[env.listing[j]].contents);
    }
  }

  /**
   * The empty URL is a URL, and loose `==` on two strings that are not both
   * numeric is equality, so "" finds a file exactly when some listed file has
   * no url line.
   */
  lemma LookupEmptyUrl(env: Env, cache: Cache)
    requires AllFiles(env, env.listing)
    ensures !IsPathArg("")
    ensures GetArticleSpec(env, cache, "").article.Some?
            <==> exists i :: 0 <= i < |env.listing| && PregMatch(UrlLine, env.files[env.listing[i]].contents).None?
  {
    assert !Contains("", ".md");
    LookupByUrl(env, cache, "");
    forall j | 0 <= j < |env.listing| ensures Urls(env)[j] == "" <==> PregMatch(UrlLine, env.files[env.listing[j]].contents).None? {
      UrlShape(env.files[env.listing[j]].contents);
    }
  }
}
