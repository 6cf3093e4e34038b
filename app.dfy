/**
 * api/app.py: the `/api/category/<category>`, `/api/search` and `/api/movie/<movie_id>` routes.
 * The two listing scrapers turn every matched block into a three-key record whose `titulo` is the
 * movie id taken from the link; the detail scraper reads every field optionally.
 */
module AppApi {
  import opened Wrappers
  import opened Py
  import opened Soup
  import opened Http

  // ---------------------------------------------------------------------------------------------
  // Movie ids

  /** `movie_url.split('/')[-1]`: the last `/`-separated segment of a link. */
  function MovieId(link: string): (id: string)
    ensures '/' !in id
    ensures |id| <= |link| && link[|link| - |id|..] == id
  {
    LastPiece(link, "/");
    ContainsChar(Last(Split(link, "/")), '/');
    Last(Split(link, "/"))
  }

  /**
   * The id has no `/` and ends the link. A link without `/` is its own id; otherwise the link is
   * what precedes the last `/`, that `/`, and the id.
   */
  lemma MovieIdShape(link: string)
    ensures var id := MovieId(link);
      && '/' !in id
      && |id| <= |link| && link[|link| - |id|..] == id
      && ('/' !in link ==> id == link)
      && ('/' in link ==> |id| < |link| && link == link[..|link| - |id| - 1] + "/" + id)
  {
    var id := MovieId(link);
    LastPiece(link, "/");
    ContainsChar(id, '/');
    ContainsChar(link, '/');
    if '/' in link {
      var p := |link| - |id| - 1;
      assert link[p..p + 1] == "/";
      assert link == link[..p] + link[p..p + 1] + link[p + 1..];
    }
  }

  /** A non-empty suffix of `s` holds the last character of `s`. */
  lemma SuffixLast(s: string, t: string)
    requires |t| <= |s| && s[|s| - |t|..] == t
    ensures t == [] || s[|s| - 1] in t
  {
    if t != [] {
      assert t[|t| - 1] == s[|s| - 1];
    }
  }

  /** A link that ends in `/` gives the empty id. */
  lemma MovieIdTrailingSlash(link: string)
    requires link != [] && link[|link| - 1] == '/'
    ensures MovieId(link) == ""
  {
    MovieIdShape(link);
    SuffixLast(link, MovieId(link));
  }

  // ---------------------------------------------------------------------------------------------
  // Listing records

  /** The keys of a listing record. */
  const LinkKeys: set<string> := {"titulo", "capa", "url"}

  /** The record for one listed block: the id from the link's `href`, the image's `src`, and the `href` itself. */
  function ExtractLinkItem(f: Fragment): (r: Result<Record, Exception>)
    ensures r.Ok? ==> r.value.Keys == LinkKeys
  {
    var movieUrl :- Subscript(SelectOne(f, "a"), "href");
    var movieId := MovieId(movieUrl);
    var imgUrl :- Subscript(SelectOne(f, "img"), "src");
    Ok(map["titulo" := JStr(movieId), "capa" := JStr(imgUrl), "url" := JStr(movieUrl)])
  }

  /**
   * A block gives a record exactly when its `a` has an `href` and its `img` a `src`; `titulo` is
   * then the id derived from the `href`, not a title, and `url` is the `href` unchanged. The
   * link is read first, so its faults come first.
   */
  lemma LinkItemFields(f: Fragment)
    ensures ExtractLinkItem(f).Ok? <==> HasAttr(f, "a", "href") && HasAttr(f, "img", "src")
    ensures ExtractLinkItem(f).Ok? ==>
      var rec, href := ExtractLinkItem(f).value, f.found["a"].attrs["href"];
      && rec["titulo"] == JStr(MovieId(href))
      && rec["capa"] == JStr(f.found["img"].attrs["src"])
      && rec["url"] == JStr(href)
    ensures "a" !in f.found ==> ExtractLinkItem(f) == Err(TypeError)
    ensures "a" in f.found && !HasAttr(f, "a", "href") ==> ExtractLinkItem(f) == Err(KeyError("href"))
    ensures HasAttr(f, "a", "href") && "img" !in f.found ==> ExtractLinkItem(f) == Err(TypeError)
    ensures HasAttr(f, "a", "href") && "img" in f.found && !HasAttr(f, "img", "src") ==>
      ExtractLinkItem(f) == Err(KeyError("src"))
  {
  }

  /** The selector of one block on a category page. */
  const MovieItem: Selector := ".movie-item"

  /** The selector of one block on a search page. */
  const SuggestedItem: Selector := ".suggested-item"

  /** `get_movies_by_category(category)`: fetch the category page and scrape every `.movie-item`. */
  method GetMoviesByCategory(category: string, upstream: Upstream)
    returns (out: Outcome<seq<Record>>, sent: seq<Request>)
    ensures sent == [CategoryPage(category)]
    ensures out == Listing(upstream(CategoryPage(category)), MovieItem, ExtractLinkItem)
  {
    var request := CategoryPage(category);
    sent := [request];
    var response := upstream(request);
    out := CollectRecords(response, MovieItem, ExtractLinkItem);
  }

  /** `search_movies(query)`: fetch the search page and scrape every `.suggested-item`. */
  method SearchMovies(query: string, upstream: Upstream)
    returns (out: Outcome<seq<Record>>, sent: seq<Request>)
    ensures sent == [SearchPage(query)]
    ensures out == Listing(upstream(SearchPage(query)), SuggestedItem, ExtractLinkItem)
  {
    var request := SearchPage(query);
    sent := [request];
    var response := upstream(request);
    out := CollectRecords(response, SuggestedItem, ExtractLinkItem);
  }

  /** `/api/category/<category>`: the category page's listing, whatever it ended in. */
  method ApiGetCategory(category: string, upstream: Upstream)
    returns (reply: Reply<seq<Record>>, sent: seq<Request>)
    ensures sent == [CategoryPage(category)]
    ensures reply == Forwarded(Listing(upstream(CategoryPage(category)), MovieItem, ExtractLinkItem))
  {
    var movies;
    movies, sent := GetMoviesByCategory(category, upstream);
    reply := Forwarded(movies);
  }

  /** `/api/search`: 400 without fetching when `query` is absent or empty, otherwise the search listing. */
  method ApiSearch(args: map<string, string>, upstream: Upstream)
    returns (reply: Reply<seq<Record>>, sent: seq<Request>)
    ensures Falsy(ArgGet(args, "query")) ==>
      reply == ClientError(BadRequest, ErrorBody("Nenhum termo de pesquisa fornecido")) && sent == []
    ensures !Falsy(ArgGet(args, "query")) ==>
      && sent == [SearchPage(args["query"])]
      && reply == Forwarded(Listing(upstream(sent[0]), SuggestedItem, ExtractLinkItem))
  {
    var query := ArgGet(args, "query");
    if Falsy(query) {
      return ClientError(BadRequest, ErrorBody("Nenhum termo de pesquisa fornecido")), [];
    }
    var movies;
    movies, sent := SearchMovies(query.value, upstream);
    reply := Forwarded(movies);
  }

  // ---------------------------------------------------------------------------------------------
  // Movie details

  /** The keys of a detail record. */
  const DetailKeys: set<string> := {"titulo", "avaliacao", "genero", "sinopse", "ano", "duracao", "banner"}

  /** `soup.select_one(sel).get_text(strip=True) if soup.select_one(sel) else None`. */
  function DetailText(doc: Document, sel: Selector): (v: JValue)
    ensures v == JNull <==> sel !in doc.root.found
    ensures sel in doc.root.found ==> v == JStr(doc.root.found[sel].text)
  {
    match SelectOne(doc.root, sel)
    case None => JNull
    case Some(node) => JStr(node.text)
  }

  /** The `style` of `.poster-m`, or `None` when there is no such node or it has no `style`. */
  function BannerStyle(doc: Document): (style: Option<string>)
    ensures style.Some? <==> HasAttr(doc.root, ".poster-m", "style")
    ensures style.Some? ==> style.value == doc.root.found[".poster-m"].attrs["style"]
  {
    match SelectOne(doc.root, ".poster-m")
    case None => None
    case Some(node) => GetAttr(node, "style")
  }

  /**
   * The banner URL of a detail page: `None` when the style is missing or empty, otherwise the
   * text after the first `url('` up to the next `')`; a style without `url('` raises IndexError.
   */
  function DetailBanner(banner: Option<string>): (r: Result<JValue, Exception>)
    ensures r == Ok(JNull) <==> Falsy(banner)
    ensures r.Err? <==> !Falsy(banner) && !Contains(banner.value, "url('")
    ensures r.Err? ==> r.error == IndexError
  {
    if Falsy(banner) then Ok(JNull)
    else
      SplitCount(banner.value, "url('");
      var inner :- Item(Split(banner.value, "url('"), 1);
      Ok(JStr(Split(inner, "')")[0]))
  }

  /**
   * For a style `a + "url('" + x + "')" + b`, where `a` does not contain `url('`, `x` contains no
   * `')`, and no `url('` starts inside `x` (not even one whose quote is the closing one), the
   * banner is exactly `x`.
   */
  lemma DetailBannerOfUrl(a: string, x: string, b: string)
    requires !Contains(a, "url('") && !Contains(x + "'", "url('") && !Contains(x, "')")
    ensures DetailBanner(Some(a + "url('" + x + "')" + b)) == Ok(JStr(x))
  {
    var sep := "url('";
    var s := a + sep + x + "')" + b;
    var i, m := |a|, |a| + |sep| + |x| + 2;
    UnborderedByHead(sep);
    assert s == a + sep + (x + "')" + b);
    FindAfter(a, sep, x + "')" + b);
    NoUrlBefore(a, x, b);
    SecondPieceKeeps(s, sep, i, m);
    var piece := Split(s, sep)[1];
    assert piece[..|x| + 2] == x + "')";
    UnborderedByHead("')");
    FirstPieceIs(piece, x, "')");
  }

  /** Helper of `DetailBannerOfUrl`: after the first `url('`, the next one starts after `x + "')"`. */
  lemma NoUrlBefore(a: string, x: string, b: string)
    requires !Contains(x + "'", "url('")
    ensures var s, i := a + "url('" + x + "')" + b, |a|;
      && s[i + 5..i + 5 + |x| + 2] == x + "')"
      && forall j: nat :: i + 5 <= j < i + 5 + |x| + 2 ==> !OccursAt(s, "url('", j)
  {
    var sep := "url('";
    var s := a + sep + x + "')" + b;
    var i, m := |a|, |a| + |sep| + |x| + 2;
    assert s[i + |sep|..m] == x + "')";
    forall j: nat | i + |sep| <= j < m ensures !OccursAt(s, sep, j) {
      if j + |sep| <= m - 1 {
        var q := j - i - |sep|;
        assert s[i + |sep|..m - 1] == x + "'";
        assert s[j..j + |sep|] == (x + "'")[q..q + |sep|];
        assert !OccursAt(x + "'", sep, q);
      } else {
        CharBlocks(s, sep, j, m - 1);
      }
    }
  }

  /** A style with no quote at all, such as an unquoted `url(x)`, makes the detail banner fault. */
  lemma DetailBannerUnquoted(style: string)
    requires style != [] && '\'' !in style
    ensures DetailBanner(Some(style)) == Err(IndexError)
  {
    FreeOfChar(style, "url('", '\'');
  }

  /**
   * What `get_movie_details` makes of the movie page's answer: unless it is 200, the error pair;
   * otherwise the seven fields, each `None` when its node is absent, and the banner.
   */
  function MovieDetails(resp: Response): (out: Outcome<Record>)
    ensures out.UpstreamFailed? <==> resp.status != 200
    ensures out.UpstreamFailed? ==> out.body == FetchError && out.status == ServerError
    ensures out.Produced? ==> out.value.Keys == DetailKeys
  {
    if resp.status != 200 then UpstreamFailed(FetchError, ServerError)
    else
      var doc := resp.doc;
      match DetailBanner(BannerStyle(doc))
      case Err(e) => Raised(e)
      case Ok(bannerUrl) =>
        Produced(map[
          "titulo" := DetailText(doc, ".titulo h1"),
          "avaliacao" := DetailText(doc, ".imdb p"),
          "genero" := DetailText(doc, ".genres ul li strong"),
          "sinopse" := DetailText(doc, ".sinopse p"),
          "ano" := DetailText(doc, ".informacoes li strong"),
          "duracao" := DetailText(doc, ".duration li strong"),
          "banner" := bannerUrl
        ])
  }

  /** `get_movie_details(movie_id)`: fetch the movie page, once, and read it. */
  method GetMovieDetails(movieId: string, upstream: Upstream)
    returns (out: Outcome<Record>, sent: seq<Request>)
    ensures sent == [DetailPage(movieId)]
    ensures out == MovieDetails(upstream(DetailPage(movieId)))
  {
    var request := DetailPage(movieId);
    sent := [request];
    var response := upstream(request);
    out := MovieDetails(response);
  }

  /** Field `key` of `rec` is `None` exactly when `sel` is absent from `f`, and otherwise its text. */
  predicate OptionalText(rec: Record, key: string, f: Fragment, sel: Selector) {
    && key in rec
    && (rec[key] == JNull <==> sel !in f.found)
    && (sel in f.found ==> rec[key] == JStr(f.found[sel].text))
  }

  /**
   * After a 200 answer, only the banner can fault. Otherwise each text field is `None` exactly
   * when its node is absent, and the record has no `capa` and no `play_url`.
   */
  lemma DetailFields(resp: Response)
    requires resp.status == 200
    ensures var doc, out := resp.doc, MovieDetails(resp);
      && (out.Raised? <==> DetailBanner(BannerStyle(doc)).Err?)
      && (out.Produced? ==>
        && OptionalText(out.value, "titulo", doc.root, ".titulo h1")
        && OptionalText(out.value, "avaliacao", doc.root, ".imdb p")
        && OptionalText(out.value, "genero", doc.root, ".genres ul li strong")
        && OptionalText(out.value, "sinopse", doc.root, ".sinopse p")
        && OptionalText(out.value, "ano", doc.root, ".informacoes li strong")
        && OptionalText(out.value, "duracao", doc.root, ".duration li strong")
        && out.value["banner"] == DetailBanner(BannerStyle(doc)).value
        && "capa" !in out.value && "play_url" !in out.value)
  {
  }

  /** A page without `.poster-m`, or whose `.poster-m` has no `style`, never faults and has a `None` banner. */
  lemma DetailWithoutBanner(resp: Response)
    requires resp.status == 200 && !HasAttr(resp.doc.root, ".poster-m", "style")
    ensures MovieDetails(resp).Produced?
    ensures MovieDetails(resp).value["banner"] == JNull
  {
  }

  /** A page on which no selector matches gives a record whose seven fields are all `None`. */
  lemma DetailEmptyPage(resp: Response)
    requires resp.status == 200 && resp.doc.root.found == map[]
    ensures MovieDetails(resp).Produced?
    ensures forall key :: key in MovieDetails(resp).value ==> MovieDetails(resp).value[key] == JNull
  {
  }

  /** `/api/movie/<movie_id>`: the detail record of that one movie page, whatever it ended in. */
  method ApiGetMovie(movieId: string, upstream: Upstream)
    returns (reply: Reply<Record>, sent: seq<Request>)
    ensures sent == [DetailPage(movieId)]
    ensures reply == Forwarded(MovieDetails(upstream(DetailPage(movieId))))
  {
    var details;
    details, sent := GetMovieDetails(movieId, upstream);
    reply := Forwarded(details);
  }
}
