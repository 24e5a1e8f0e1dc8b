/**
 * The request side of lib/app.php: the three routes of load(), the page
 * title, and the `app` object whose cache of rendered articles its
 * methods update. The endpoint arrives already taken from the request URI
 * and urldecoded; the templates and HTTP headers are left to the caller.
 */
module Site {
  import opened Wrappers
  import opened Text
  import opened Patterns
  import opened Articles
  import opened Sorting

  // ---------------------------------------------------------------------
  // Routing

  /** A character of `[a-z\-0-9 ]`, the category route's class. */
  predicate IsCategoryChar(c: char)
  {
    'a' <= c <= 'z' || c == '-' || '0' <= c <= '9' || c == ' '
  }

  /** A character of `[a-z\-0-9]`, the post route's class. */
  predicate IsSlugChar(c: char)
  {
    'a' <= c <= 'z' || c == '-' || '0' <= c <= '9'
  }

  predicate IsCategoryBody(s: string)
  {
    |s| >= 2 && s[0] == '/' && forall k :: 1 <= k < |s| ==> IsCategoryChar(s[k])
  }

  /** A run of at least one slug character. */
  predicate IsSlug(s: string)
  {
    |s| > 0 && forall k :: 0 <= k < |s| ==> IsSlugChar(s[k])
  }

  /** `/` + slug + `/` + slug, split at the second '/'. */
  predicate IsPostBody(s: string)
  {
    |s| >= 1 && s[0] == '/' && exists m :: 1 <= m < |s| && s[m] == '/' && IsSlug(s[1..m]) && IsSlug(s[m + 1..])
  }

  /**
   * `$` without the D modifier also matches just before a final "\n", so an
   * anchored regex accepts its body alone or followed by one newline.
   */
  predicate EndsAnchored(s: string, body: string -> bool)
  {
    body(s) || (|s| > 0 && s[|s| - 1] == '\n' && body(s[..|s| - 1]))
  }

  /** preg_match('/^\/[a-z\-0-9 ]+$/', $endpoint). */
  predicate CategoryRoute(s: string)
  {
    EndsAnchored(s, IsCategoryBody)
  }

  /** preg_match('/^\/[a-z\-0-9]+\/[a-z\-0-9]+$/', $endpoint). */
  predicate PostRoute(s: string)
  {
    EndsAnchored(s, IsPostBody)
  }

  /** Which branch of load() an endpoint takes. */
  datatype Route =
    | Home
    | CategoryOf(category: string, filter: string)
    | PostOf(url: string)
    | NoRoute

  /** The branch of load(): "/" first, then the category route, then the post route; nothing else has a page. */
  function RouteOf(endpoint: string): Route
  {
    if endpoint == "/" then Home
    else if CategoryRoute(endpoint) then CategoryOf(endpoint, TrimChars(endpoint, {'/'}))
    else if PostRoute(endpoint) then PostOf(endpoint)
    else NoRoute
  }

  /** "/" + a segment of the category class lists that segment's category. */
  lemma CategoryRouteFilter(seg: string)
    requires |seg| > 0 && forall k :: 0 <= k < |seg| ==> IsCategoryChar(seg[k])
    ensures RouteOf("/" + seg) == CategoryOf("/" + seg, seg)
  {
    var s := "/" + seg;
    assert IsCategoryBody(s) by {
      forall k | 1 <= k < |s| ensures IsCategoryChar(s[k]) {
        assert s[k] == seg[k - 1];
      }
    }
    assert s != "/" by {
      assert |s| == |seg| + 1;
    }
    assert LeadEnd(s, {'/'}, 1) == 1;
    assert s[1..] == seg;
    forall k | 0 <= k < |seg| ensures seg[k] !in {'/'} {
      assert IsCategoryChar(seg[k]);
    }
    TrimNoStripChars(seg, {'/'});
    assert TrimLeft(s, {'/'}) == seg;
  }

  /**
   * The category route also takes a trailing newline along, into the title
   * and into the filter (trim with '/' keeps it), since `$` matches before it.
   */
  lemma CategoryRouteNewline(seg: string)
    requires |seg| > 0 && forall k :: 0 <= k < |seg| ==> IsCategoryChar(seg[k])
    ensures RouteOf("/" + seg + "\n") == CategoryOf("/" + seg + "\n", seg + "\n")
  {
    var s := "/" + seg + "\n";
    assert s[..|s| - 1] == "/" + seg;
    CategoryRouteFilter(seg);
    assert CategoryRoute(s);
    assert s != "/" by {
      assert |s| == |seg| + 2;
    }
    assert s[1..] == seg + "\n";
    assert LeadEnd(s, {'/'}, 1) == 1;
    var t := seg + "\n";
    assert TrailStart(t, {'/'}, |t|) == |t|;
    assert t[..|t|] == t;
  }

  /** "/" + slug + "/" + slug is a post URL. */
  lemma PostRouteOf(a: string, b: string)
    requires IsSlug(a) && IsSlug(b)
    ensures RouteOf("/" + a + "/" + b) == PostOf("/" + a + "/" + b)
  {
    var s := "/" + a + "/" + b;
    var m := |a| + 1;
    assert s[m] == '/' && s[1..m] == a && s[m + 1..] == b;
    assert IsPostBody(s);
    assert !IsCategoryBody(s) by {
      assert !IsCategoryChar(s[m]);
    }
    assert !CategoryRoute(s) by {
      assert s[|s| - 1] == b[|b| - 1];
    }
    assert s != "/" by {
      assert |s| == |a| + |b| + 2;
    }
  }

  /** A category body has one '/', a post body two. */
  lemma BodiesExclusive(s: string)
    ensures !(IsCategoryBody(s) && IsPostBody(s))
  {
    if IsPostBody(s) {
      var m :| 1 <= m < |s| && s[m] == '/' && IsSlug(s[1..m]) && IsSlug(s[m + 1..]);
      assert !IsCategoryChar(s[m]);
    }
  }

  /** Neither body ends in a newline: the newline only ever comes from `$`. */
  lemma BodiesEndInClass(s: string)
    requires |s| > 0 && s[|s| - 1] == '\n'
    ensures !IsCategoryBody(s) && !IsPostBody(s)
  {
    assert !IsCategoryChar(s[|s| - 1]);
    forall m | 1 <= m < |s| - 1 && s[m] == '/' ensures !IsSlug(s[m + 1..]) {
      assert s[m + 1..][|s| - m - 2] == '\n';
    }
  }

  /** No endpoint takes both the category route and the post route. */
  lemma RoutesExclusive(s: string)
    ensures !(CategoryRoute(s) && PostRoute(s))
  {
    BodiesExclusive(s);
    if |s| > 0 && s[|s| - 1] == '\n' {
      BodiesEndInClass(s);
      BodiesExclusive(s[..|s| - 1]);
    }
  }

  /** A post body is made of slug characters and '/', so it holds no '.'. */
  lemma PostBodyNoDot(t: string)
    requires IsPostBody(t)
    ensures forall i :: 0 <= i < |t| ==> t[i] != '.'
  {
    var m :| 1 <= m < |t| && t[m] == '/' && IsSlug(t[1..m]) && IsSlug(t[m + 1..]);
    forall i | 0 <= i < |t| ensures t[i] != '.' {
      if 1 <= i < m {
        assert t[i] == t[1..m][i - 1];
      } else if m < i {
        assert t[i] == t[m + 1..][i - m - 1];
      }
    }
  }

  /** A post endpoint has no '.', so get_article takes it for a URL and looks it up. */
  lemma PostRouteIsUrl(s: string)
    requires PostRoute(s)
    ensures !IsPathArg(s)
  {
    if IsPostBody(s) {
      PostBodyNoDot(s);
    } else {
      var t := s[..|s| - 1];
      PostBodyNoDot(t);
      assert forall i :: 0 <= i < |t| ==> s[i] == t[i];
    }
    NotContainsChar(s, ".md", 0);
  }

  // ---------------------------------------------------------------------
  // Views and the title

  /** The array load() returns, one shape per view template. */
  datatype View =
    | DefaultView(articles: seq<Article>)
    | CatView(category: string, articles: seq<Article>)
    | PostView(article: Option<Article>)

  const SiteName := " - DataChild"
  const DefaultTitle := "Data programming and ML"

  /** The page title: the article's title, else the category, else the default, then the site name. */
  function Title(v: View): (t: string)
    ensures |t| >= |SiteName| && t[|t| - |SiteName|..] == SiteName
    ensures v.PostView? && v.article.Some? ==> t[..|t| - |SiteName|] == v.article.value.title
    ensures v.CatView? ==> t[..|t| - |SiteName|] == v.category
    ensures v.DefaultView? || (v.PostView? && v.article.None?) ==> t[..|t| - |SiteName|] == DefaultTitle
  {
    var base := match v
      case PostView(Some(a)) => a.title
      case CatView(c, _) => c
      case _ => DefaultTitle;
    assert (base + SiteName)[..|base|] == base;
    base + SiteName
  }

  /** The response of run(): a 404, or the page with its template and X-PAGE-TITLE header. */
  datatype Response = NotFound | Page(template: string, view: View, title: string)

  /** The template name of a view. */
  function ViewName(v: View): string
  {
    match v
    case DefaultView(_) => "default"
    case CatView(_, _) => "cat"
    case PostView(_) => "post"
  }

  /** A POST request gets the bare view; otherwise the layout, or its body-only version when X-BODY-ONLY is set. */
  function Template(v: View, isPost: bool, bodyOnly: bool): (name: string)
    ensures isPost ==> name == ViewName(v)
    ensures !isPost ==> name == (if bodyOnly then "layout.body" else "layout")
  {
    if isPost then ViewName(v) else "layout" + (if bodyOnly then ".body" else "")
  }

  // ---------------------------------------------------------------------
  // The app object

  /** The effect of a listing: the new cache, and a latest-first ordering of exactly the kept articles. */
  ghost predicate Lists(env: Env, before: Cache, filter: Option<string>, xs: seq<Article>, after: Cache)
    requires AllFiles(env, env.listing)
  {
    var spec := Collect(env, before, env.listing, filter);
    after == spec.cache && SortedByPublish(xs) && multiset(xs) == multiset(spec.articles)
  }

  /** load() for an endpoint: the view of its route, and the cache it leaves. */
  ghost predicate Loads(env: Env, before: Cache, endpoint: string, v: Option<View>, after: Cache)
    requires ValidEnv(env)
  {
    match RouteOf(endpoint)
    case NoRoute => v.None? && after == before
    case Home => v.Some? && v.value.DefaultView? && Lists(env, before, None, v.value.articles, after)
    case CategoryOf(c, f) =>
      v.Some? && v.value.CatView? && v.value.category == c && Lists(env, before, Some(f), v.value.articles, after)
    case PostOf(u) =>
      !IsPathArg(u) && var spec := GetArticleSpec(env, before, u); v == Some(PostView(spec.article)) && after == spec.cache
  }

  /** One more turn of the foreach loop is one more path in Collect. */
  lemma CollectStep(env: Env, cache: Cache, paths: seq<Path>, i: nat, filter: Option<string>)
    requires AllFiles(env, paths) && i < |paths|
    ensures AllFiles(env, paths[..i]) && AllFiles(env, paths[..i + 1])
    ensures var prev := Collect(env, cache, paths[..i], filter);
            var f := Fetch(env, prev.cache, paths[i]);
            Collect(env, cache, paths[..i + 1], filter)
            == Listed(if Keep(f.article, filter) then prev.articles + [f.article] else prev.articles,
                      f.cache, prev.renders + (if f.rendered then 1 else 0))
  {
    assert paths[..i + 1][..i] == paths[..i];
    assert paths[..i + 1][i] == paths[i];
  }

  /** "/0" takes the category route, with the filter "0". */
  lemma ZeroIsCategory()
    ensures RouteOf("/0") == CategoryOf("/0", "0")
  {
    assert IsCategoryChar("0"[0]);
    CategoryRouteFilter("0");
    assert "/" + "0" == "/0";
  }

  /** A falsy filter such as "0" drops nothing: "/0" lists every article like the home page. */
  lemma FalsyFilterListsAll(env: Env, cache: Cache, f: string)
    requires AllFiles(env, env.listing) && !Truthy(f)
    ensures Collect(env, cache, env.listing, Some(f)) == Collect(env, cache, env.listing, None)
  {
    CollectIsFilter(env, cache, env.listing, Some(f));
    FilterNone(Collect(env, cache, env.listing, None).articles, Some(f));
  }

  /** A category page shows only articles of that category or carrying it as a tag. */
  lemma CategoryPageMembers(env: Env, before: Cache, f: string, xs: seq<Article>, after: Cache)
    requires AllFiles(env, env.listing) && Truthy(f)
    requires Lists(env, before, Some(f), xs, after)
    ensures forall a :: a in xs ==> a.category == f || f in SplitTags(a.tags)
  {
    CollectIsFilter(env, before, env.listing, Some(f));
    var spec := Collect(env, before, env.listing, Some(f));
    forall a | a in xs ensures a.category == f || f in SplitTags(a.tags) {
      assert a in multiset(xs);
      assert a in spec.articles;
    }
  }

  /** The home page shows one record per listed file. */
  lemma HomePageCount(env: Env, before: Cache, xs: seq<Article>, after: Cache)
    requires AllFiles(env, env.listing)
    requires Lists(env, before, None, xs, after)
    ensures |xs| == |env.listing|
  {
    CollectAll(env, before, env.listing);
    assert |multiset(xs)| == |multiset(Collect(env, before, env.listing, None).articles)|;
  }

  class App {
    /** The content files, glob order, md5 and pandoc. */
    const env: Env
    /** The cache directory. */
    var cache: Cache

    constructor(env: Env, cache: Cache)
      requires ValidEnv(env)
      ensures this.env == env && this.cache == cache
    {
      this.env := env;
      this.cache := cache;
    }

    /** The foreach loop over the glob: the first file whose url equals x, if any. */
    method FindPath(x: string) returns (found: Option<Path>)
      requires AllFiles(env, env.listing)
      ensures found.None? <==> FindFrom(Urls(env), x, 0).None?
      ensures found.Some? ==> found.value == env.listing[FindFrom(Urls(env), x, 0).value]
    {
      var i := 0;
      while i < |env.listing|
        invariant 0 <= i <= |env.listing|
        invariant FindFrom(Urls(env), x, i) == FindFrom(Urls(env), x, 0)
      {
        var url := UrlOf(env.files[env.listing[i]].contents);
        assert url == Urls(env)[i];
        if url == x {
          return Some(env.listing[i]);
        }
        i := i + 1;
      }
      return None;
    }

    /** The cache step: a record whose ts is the file's mtime is reused, otherwise pandoc runs and the record is stored. */
    method Refresh(p: Path) returns (a: Article)
      requires p in env.files
      modifies this
      ensures a == Fetch(env, old(cache), p).article && cache == Fetch(env, old(cache), p).cache
    {
      var key := env.hash(p);
      var data: Option<Article> := None;
      if key in cache {
        data := Some(cache[key]);
        if data.value.ts != env.files[p].mtime {
          data := None;
        }
      }
      if data.None? {
        var built := Build(env, env.files[p]);
        cache := cache[key := built];
        data := Some(built);
      }
      return data.value;
    }

    /**
     * get_article($url_or_md): a URL is first resolved to the first listed
     * file with that url (none gives null); the file's record then comes
     * from the cache or from rendering.
     */
    method GetArticle(x: string) returns (a: Option<Article>)
      requires AllFiles(env, env.listing) && (IsPathArg(x) ==> x in env.files)
      modifies this
      ensures a == GetArticleSpec(env, old(cache), x).article
      ensures cache == GetArticleSpec(env, old(cache), x).cache
    {
      var path := x;
      if !IsPathArg(x) {
        var found := FindPath(x);
        if found.None? {
          return None;
        }
        path := found.value;
      }
      var r := Refresh(path);
      return Some(r);
    }

    /** The foreach loop of get_articles: fetch every listed file in glob order and keep what the filter accepts. */
    method CollectKept(filter: Option<string>) returns (kept: seq<Article>)
      requires ValidEnv(env)
      modifies this
      ensures kept == Collect(env, old(cache), env.listing, filter).articles
      ensures cache == Collect(env, old(cache), env.listing, filter).cache
    {
      kept := [];
      var i := 0;
      while i < |env.listing|
        invariant 0 <= i <= |env.listing|
        invariant Collect(env, old(cache), env.listing[..i], filter).articles == kept
        invariant Collect(env, old(cache), env.listing[..i], filter).cache == cache
      {
        CollectStep(env, old(cache), env.listing, i, filter);
        var a := GetArticle(env.listing[i]);
        if Keep(a.value, filter) {
          kept := kept + [a.value];
        }
        i := i + 1;
      }
      assert env.listing[..i] == env.listing;
    }

    /** get_articles($filter): the kept records, sorted latest first by usort. */
    method GetArticles(filter: Option<string>) returns (list: seq<Article>)
      requires ValidEnv(env)
      modifies this
      ensures Lists(env, old(cache), filter, list, cache)
    {
      var kept := CollectKept(filter);
      var sorted := new Article[|kept|](k requires 0 <= k < |kept| => kept[k]);
      assert sorted[..] == kept;
      SortByPublish(sorted);
      list := sorted[..];
    }

    /** load(): the view of the endpoint's route, or null when no route matches. */
    method Load(endpoint: string) returns (v: Option<View>)
      requires ValidEnv(env)
      modifies this
      ensures Loads(env, old(cache), endpoint, v, cache)
    {
      if endpoint == "/" {
        var list := GetArticles(None);
        return Some(DefaultView(list));
      } else if CategoryRoute(endpoint) {
        var list := GetArticles(Some(TrimChars(endpoint, {'/'})));
        return Some(CatView(endpoint, list));
      } else if PostRoute(endpoint) {
        PostRouteIsUrl(endpoint);
        var a := GetArticle(endpoint);
        return Some(PostView(a));
      }
      return None;
    }

    /** run(): a 404 when load() gives null, else the chosen template with the page title. */
    method Run(endpoint: string, isPost: bool, bodyOnly: bool) returns (r: Response)
      requires ValidEnv(env)
      modifies this
      ensures r.NotFound? <==> RouteOf(endpoint).NoRoute?
      ensures r.Page? ==> r.title == Title(r.view) && r.template == Template(r.view, isPost, bodyOnly)
      ensures r.Page? ==> Loads(env, old(cache), endpoint, Some(r.view), cache)
      ensures r.NotFound? ==> cache == old(cache)
    {
      var data := Load(endpoint);
      if data.None? {
        return NotFound;
      }
      return Page(Template(data.value, isPost, bodyOnly), data.value, Title(data.value));
    }
  }
}
