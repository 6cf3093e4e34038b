/**
 * api/movie.py: the genre table, the `/api/get_by_category` and `/api/categories` routes, and
 * the listing scraper that turns every `.info-filme` block of a genre page into a nine-key record.
 */
module MovieApi {
  import opened Wrappers
  import opened Py
  import opened Soup
  import opened Http

  // ---------------------------------------------------------------------------------------------
  // The category table

  /** The category names the API accepts, in the table's order, with the upstream genre id of each. */
  const Categories: seq<(string, string)> := [
    ("Aventura", "12"),
    ("Fantasia", "14"),
    ("Animação", "16"),
    ("Drama", "18"),
    ("Terror", "27"),
    ("Ação", "28"),
    ("Comédia", "35"),
    ("História", "36"),
    ("Faroeste", "37"),
    ("Thriller", "53"),
    ("Crime", "80"),
    ("Documentário", "99"),
    ("Ficção científica", "878"),
    ("Mistério", "9648"),
    ("Música", "10402"),
    ("Romance", "10749"),
    ("Família", "10751"),
    ("Guerra", "10752"),
    ("Cinema TV", "10770")
  ]

  /** `s` is a non-empty run of decimal digits. */
  predicate IsDecimal(s: string) {
    s != [] && forall k :: 0 <= k < |s| ==> '0' <= s[k] <= '9'
  }

  /** The table has 19 entries with distinct names. */
  lemma CategoryNames()
    ensures |Categories| == 19
    ensures forall i, j :: 0 <= i < j < |Categories| ==> Categories[i].0 != Categories[j].0
  {
  }

  /** Each name maps to its own non-empty decimal id. */
  lemma CategoryIds()
    ensures forall i, j :: 0 <= i < j < |Categories| ==> Categories[i].1 != Categories[j].1
    ensures forall i :: 0 <= i < |Categories| ==> IsDecimal(Categories[i].1)
  {
  }

  /** The table searched from entry `k` on. */
  function LookupFrom(name: string, k: nat): Option<string>
    decreases |Categories| - k
  {
    if k >= |Categories| then None
    else if Categories[k].0 == name then Some(Categories[k].1)
    else LookupFrom(name, k + 1)
  }

  /** `categories.get(name)`. */
  function Lookup(name: string): Option<string> {
    LookupFrom(name, 0)
  }

  /** Searching from `k` finds the first entry at or after `k` with that name, or reports there is none. */
  lemma {:induction false} LookupFromSpec(name: string, k: nat)
    ensures var r := LookupFrom(name, k);
      && (r.Some? ==> exists i :: k <= i < |Categories| && Categories[i] == (name, r.value))
      && (r.None? ==> forall i :: k <= i < |Categories| ==> Categories[i].0 != name)
    decreases |Categories| - k
  {
    if k < |Categories| && Categories[k].0 != name {
      LookupFromSpec(name, k + 1);
    }
  }

  /** `categories.get` gives each listed name its own id, and `None` for every other name. */
  lemma LookupSpec(name: string)
    ensures forall i :: 0 <= i < |Categories| && Categories[i].0 == name ==> Lookup(name) == Some(Categories[i].1)
    ensures Lookup(name).None? <==> forall i :: 0 <= i < |Categories| ==> Categories[i].0 != name
  {
    LookupFromSpec(name, 0);
    CategoryNames();
  }

  /**
   * Every id in the table is non-empty, so the route's `not category_id` test fails exactly for
   * the names that are not in the table.
   */
  lemma FalsyIdIsUnknown(name: string)
    ensures Falsy(Lookup(name)) <==> Lookup(name).None?
  {
    LookupFromSpec(name, 0);
    CategoryIds();
  }

  /** `/api/categories`: the table's names, in the table's order. */
  function ApiGetCategories(): (names: seq<string>)
    ensures |names| == |Categories|
    ensures forall i :: 0 <= i < |names| ==> names[i] == Categories[i].0
  {
    seq(|Categories|, i requires 0 <= i < |Categories| => Categories[i].0)
  }

  /** The names `/api/categories` lists are exactly the ones `/api/get_by_category` accepts. */
  lemma CategoriesAccepted(name: string)
    ensures name in ApiGetCategories() <==> Lookup(name).Some?
  {
    LookupSpec(name);
    var names := ApiGetCategories();
    if name in names {
      var i :| 0 <= i < |names| && names[i] == name;
      assert Categories[i].0 == name;
    }
    if Lookup(name).Some? {
      LookupFromSpec(name, 0);
      var i :| 0 <= i < |Categories| && Categories[i] == (name, Lookup(name).value);
      assert names[i] == name;
    }
  }

  // ---------------------------------------------------------------------------------------------
  // The banner URL

  /**
   * The banner URL inside an inline `style`: the text after the first `url(` up to the next `)`
   * (the part after `url(` is first cut at any further `url(`), with runs of `'` stripped from
   * both ends. The style must contain `url(`: otherwise the `[1]` raises IndexError.
   */
  function BannerFromStyle(style: string): (r: Result<string, Exception>)
    ensures r.Err? <==> !Contains(style, "url(")
    ensures r.Err? ==> r.error == IndexError
  {
    SplitCount(style, "url(");
    var after :- Item(Split(style, "url("), 1);
    Ok(Strip(Split(after, ")")[0], '\''))
  }

  /** A banner URL never contains `)`. */
  lemma BannerHasNoParen(style: string)
    ensures BannerFromStyle(style).Ok? ==> ')' !in BannerFromStyle(style).value
  {
    SplitCount(style, "url(");
    if Contains(style, "url(") {
      var first := Split(Split(style, "url(")[1], ")")[0];
      SplitPiecesFree(Split(style, "url(")[1], ")");
      ContainsChar(first, ')');
      StripChars(first, '\'');
    }
  }

  /** `url(` is unbordered: two occurrences of it never overlap. */
  lemma UrlUnbordered()
    ensures Unbordered("url(")
  {
    UnborderedByHead("url(");
  }

  /**
   * For a style `a + "url(" + x + ")" + b`, where neither `a` nor `x` contains `url(` and `x`
   * contains no `)`, the banner is `x` with its runs of `'` stripped.
   */
  lemma BannerOfUrl(a: string, x: string, b: string)
    requires !Contains(a, "url(") && !Contains(x, "url(") && ')' !in x
    ensures BannerFromStyle(a + "url(" + x + ")" + b) == Ok(Strip(x, '\''))
  {
    var sep := "url(";
    var s := a + sep + x + ")" + b;
    var i, m := |a|, |a| + |sep| + |x| + 1;
    UrlUnbordered();
    assert s == a + sep + (x + ")" + b);
    FindAfter(a, sep, x + ")" + b);
    assert s[i + |sep|..m] == x + ")";
    forall j: nat | i + |sep| <= j < m ensures !OccursAt(s, sep, j) {
      if j + |sep| <= m - 1 {
        var q := j - i - |sep|;
        assert s[j..j + |sep|] == x[q..q + |sep|];
        assert !OccursAt(x, sep, q);
      } else {
        CharBlocks(s, sep, j, m - 1);
      }
    }
    SecondPieceKeeps(s, sep, i, m);
    var piece := Split(s, sep)[1];
    assert piece[..|x| + 1] == x + ")";
    ContainsChar(x, ')');
    UnborderedByHead(")");
    FirstPieceIs(piece, x, ")");
  }

  /**
   * Quoted or not, `url('x')` and `url(x)` give the same banner, `x` itself, when `x` neither
   * starts nor ends with a quote.
   */
  lemma BannerQuotedOrNot(a: string, x: string, b: string)
    requires !Contains(a, "url(") && !Contains(x, "url(") && ')' !in x
    requires x == [] || (x[0] != '\'' && x[|x| - 1] != '\'')
    ensures BannerFromStyle(a + "url('" + x + "')" + b) == Ok(x)
    ensures BannerFromStyle(a + "url(" + x + ")" + b) == Ok(x)
  {
    StripUnchanged(x, '\'');
    BannerOfUrl(a, x, b);
    var q := ['\''] + x + ['\''];
    WrapFree(x, '\'', "url(");
    assert a + "url('" + x + "')" + b == a + "url(" + q + ")" + b;
    assert ')' !in q;
    BannerOfUrl(a, q, b);
    StripWrapped(x, '\'');
  }

  // ---------------------------------------------------------------------------------------------
  // One `.info-filme` block

  /** The keys of a listing record. */
  const ListingKeys: set<string> :=
    {"titulo", "avaliacao", "genero", "sinopse", "ano", "duracao", "capa", "banner", "play_url"}

  /** `play_url`: the `href` of `.play a` when there is such a node, `None` when there is not. */
  function PlayUrl(f: Fragment): (r: Result<JValue, Exception>)
    ensures r.Ok? <==> (".play a" in f.found ==> "href" in f.found[".play a"].attrs)
    ensures r.Err? ==> r.error == KeyError("href")
    ensures r.Ok? ==> (r.value == JNull <==> ".play a" !in f.found)
    ensures r.Ok? && ".play a" in f.found ==> r.value == JStr(f.found[".play a"].attrs["href"])
  {
    match SelectOne(f, ".play a")
    case None => Ok(JNull)
    case Some(_) =>
      var href :- Subscript(SelectOne(f, ".play a"), "href");
      Ok(JStr(href))
  }

  /** The record for one `.info-filme` block. Every field but `play_url` is required. */
  function ExtractInfoFilme(f: Fragment): (r: Result<Record, Exception>)
    ensures r.Ok? ==> r.value.Keys == ListingKeys
  {
    var title :- GetText(SelectOne(f, ".titulo h1"));
    var rating :- GetText(SelectOne(f, ".imdb p"));
    var genre :- GetText(SelectOne(f, ".genres ul li strong"));
    var synopsis :- GetText(SelectOne(f, ".sinopse p"));
    var year :- GetText(SelectOne(f, ".informacoes li strong"));
    var duration :- GetText(SelectOne(f, ".duration li strong"));
    var coverImage :- Subscript(SelectOne(f, ".capa img"), "src");
    var bannerStyle :- Subscript(SelectOne(f, ".poster-m"), "style");
    var bannerUrl :- BannerFromStyle(bannerStyle);
    var playUrl :- PlayUrl(f);
    Ok(map[
      "titulo" := JStr(title),
      "avaliacao" := JStr(rating),
      "genero" := JStr(genre),
      "sinopse" := JStr(synopsis),
      "ano" := JStr(year),
      "duracao" := JStr(duration),
      "capa" := JStr(coverImage),
      "banner" := JStr(bannerUrl),
      "play_url" := playUrl
    ])
  }

  /** Every text selector of a block is present. */
  predicate TextsPresent(f: Fragment) {
    && ".titulo h1" in f.found && ".imdb p" in f.found && ".genres ul li strong" in f.found
    && ".sinopse p" in f.found && ".informacoes li strong" in f.found && ".duration li strong" in f.found
  }

  /** Everything a block needs for a record: the texts, the cover, a banner style with `url(`, and an `href` on any `.play a`. */
  predicate InfoComplete(f: Fragment) {
    && TextsPresent(f)
    && HasAttr(f, ".capa img", "src")
    && HasAttr(f, ".poster-m", "style")
    && Contains(f.found[".poster-m"].attrs["style"], "url(")
    && (".play a" in f.found ==> "href" in f.found[".play a"].attrs)
  }

  /** Field `key` of `rec` is the text of node `sel` of `f`. */
  predicate TextField(rec: Record, key: string, f: Fragment, sel: Selector) {
    key in rec && sel in f.found && rec[key] == JStr(f.found[sel].text)
  }

  /** A block gives a record exactly when it is complete. */
  lemma InfoFilmeComplete(f: Fragment)
    ensures ExtractInfoFilme(f).Ok? <==> InfoComplete(f)
  {
  }

  /**
   * The record of a block holds its six texts, the cover's `src`, the banner taken from the
   * `style`, and `play_url`, which is `None` exactly when `.play a` is absent.
   */
  lemma InfoFilmeFields(f: Fragment)
    requires ExtractInfoFilme(f).Ok?
    ensures var rec := ExtractInfoFilme(f).value;
      && TextField(rec, "titulo", f, ".titulo h1")
      && TextField(rec, "avaliacao", f, ".imdb p")
      && TextField(rec, "genero", f, ".genres ul li strong")
      && TextField(rec, "sinopse", f, ".sinopse p")
      && TextField(rec, "ano", f, ".informacoes li strong")
      && TextField(rec, "duracao", f, ".duration li strong")
      && rec["capa"] == JStr(f.found[".capa img"].attrs["src"])
      && rec["banner"] == JStr(BannerFromStyle(f.found[".poster-m"].attrs["style"]).value)
      && (rec["play_url"] == JNull <==> ".play a" !in f.found)
      && (".play a" in f.found ==> rec["play_url"] == JStr(f.found[".play a"].attrs["href"]))
  {
  }

  /** Which exception an incomplete block raises: the first missing piece, in the order the fields are read. */
  lemma InfoFilmeFaults(f: Fragment)
    ensures !TextsPresent(f) ==> ExtractInfoFilme(f) == Err(AttributeError("get_text"))
    ensures TextsPresent(f) && ".capa img" !in f.found ==> ExtractInfoFilme(f) == Err(TypeError)
    ensures TextsPresent(f) && ".capa img" in f.found && !HasAttr(f, ".capa img", "src") ==>
      ExtractInfoFilme(f) == Err(KeyError("src"))
    ensures TextsPresent(f) && HasAttr(f, ".capa img", "src") && ".poster-m" !in f.found ==>
      ExtractInfoFilme(f) == Err(TypeError)
    ensures (TextsPresent(f) && HasAttr(f, ".capa img", "src") && ".poster-m" in f.found
             && !HasAttr(f, ".poster-m", "style")) ==>
      ExtractInfoFilme(f) == Err(KeyError("style"))
    ensures (TextsPresent(f) && HasAttr(f, ".capa img", "src") && HasAttr(f, ".poster-m", "style")
             && !Contains(f.found[".poster-m"].attrs["style"], "url(")) ==>
      ExtractInfoFilme(f) == Err(IndexError)
    ensures (TextsPresent(f) && HasAttr(f, ".capa img", "src") && HasAttr(f, ".poster-m", "style")
             && Contains(f.found[".poster-m"].attrs["style"], "url(")
             && ".play a" in f.found && !HasAttr(f, ".play a", "href")) ==>
      ExtractInfoFilme(f) == Err(KeyError("href"))
  {
  }

  // ---------------------------------------------------------------------------------------------
  // The scraper and the routes

  /** The selector of one movie block on a genre page. */
  const InfoFilme: Selector := ".info-filme"

  /** `get_movies_by_category(category_id, page)`: fetch the genre page and scrape every block. */
  method GetMoviesByCategory(categoryId: string, page: PageArg, upstream: Upstream)
    returns (out: Outcome<seq<Record>>, sent: seq<Request>)
    ensures sent == [GenreListing(page, categoryId)]
    ensures out == Listing(upstream(GenreListing(page, categoryId)), InfoFilme, ExtractInfoFilme)
  {
    var request := GenreListing(page, categoryId);
    sent := [request];
    var response := upstream(request);
    out := CollectRecords(response, InfoFilme, ExtractInfoFilme);
  }

  /** `request.args.get('page', 1)`. */
  function PageOf(args: map<string, string>): (page: PageArg)
    ensures page == DefaultPage <==> "page" !in args
    ensures "page" in args ==> page == PageGiven(args["page"])
  {
    if "page" in args then PageGiven(args["page"]) else DefaultPage
  }

  /**
   * `/api/get_by_category`: 400 when `category` is absent or empty, 400 when it is not a name in
   * the table, and only otherwise one fetch of that genre's page.
   */
  method ApiGetByCategory(args: map<string, string>, upstream: Upstream)
    returns (reply: Reply<seq<Record>>, sent: seq<Request>)
    ensures Falsy(ArgGet(args, "category")) ==>
      reply == ClientError(BadRequest, ErrorBody("Nenhuma categoria fornecida.")) && sent == []
    ensures !Falsy(ArgGet(args, "category")) && Lookup(args["category"]).None? ==>
      reply == ClientError(BadRequest, ErrorBody("Categoria inválida.")) && sent == []
    ensures !Falsy(ArgGet(args, "category")) && Lookup(args["category"]).Some? ==>
      && sent == [GenreListing(PageOf(args), Lookup(args["category"]).value)]
      && reply == Forwarded(Listing(upstream(sent[0]), InfoFilme, ExtractInfoFilme))
  {
    var category := ArgGet(args, "category");
    var page := PageOf(args);
    if Falsy(category) {
      return ClientError(BadRequest, ErrorBody("Nenhuma categoria fornecida.")), [];
    }
    var categoryId := Lookup(category.value);
    FalsyIdIsUnknown(category.value);
    if Falsy(categoryId) {
      return ClientError(BadRequest, ErrorBody("Categoria inválida.")), [];
    }
    var movies;
    movies, sent := GetMoviesByCategory(categoryId.value, page, upstream);
    reply := Forwarded(movies);
  }
}
