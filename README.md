# api-filmes in Dafny

This project models the core of api-filmes. api-filmes is a small Flask API that scrapes an upstream movie site and re-serves what it finds as JSON. The model covers the two route files, `api/movie.py` and `api/app.py`:

- **The genre table and `/api/get_by_category`.** The route rejects a missing or empty `category` with a 400 and rejects an unknown name with a 400; neither sends a request. A known name sends exactly one request, for its genre id and the given `page` (1 when absent). `/api/categories` lists the table's names in order.
- **The listing scrapers.** These are `get_movies_by_category` in both files and `search_movies`. Each fetches one page and checks for status 200, failing otherwise with `{"error": "Falha na requisição ao servidor"}` and 500. It then builds one record per matched block, in document order. A missing required node, attribute or `url(` raises an exception that ends the whole listing.
- **String extraction with Python semantics.** This covers `str.split`, `[1]` (IndexError when too short), `[-1]`, `str.strip("'")` and `not x`. It is used for the banner URL in an inline `style` and for the movie id, the last `/`-segment of a link.
- **The detail scraper `get_movie_details`.** Every text field is optional and becomes `None` when its node is absent. The banner is `None` for a missing or empty style, and the style otherwise must contain `url('`.

Modules:

- `Wrappers` (`wrappers.dfy`): Option and Result.
- `Py` (`py.dfy`): the Python built-ins above and the exceptions they raise.
- `Soup` (`soup.dfy`): parsed pages as maps from selector to node.
- `Http` (`http.dfy`): requests, responses, JSON records, route replies, and the listing loop shared by all three scrapers.
- `MovieApi` (`movie.dfy`) and `AppApi` (`app.dfy`): the two source files.

The network is a parameter `upstream: Request -> Response`. Every scraping function and route that can fetch (`GetMoviesByCategory` in both files, `SearchMovies`, `GetMovieDetails` and the four routes) is a method that also returns the list of requests it sent, so "makes no fetch" is `sent == []`. An exception the handler does not catch is the outcome `Raised(fault)`.

Three behaviours of the code that the model keeps as written:

- The detail banner (`api/app.py:76`) splits on `url('`, so an unquoted `url(...)` raises IndexError. The listing banner (`api/movie.py:61`) splits on `url(` and strips `'`, so it accepts `url('...')` and `url(...)` alike.
- `/api/search` (`api/app.py:55-59`) answers 400 for an empty `query` as well as for a missing one, and reads no `page` argument.
- Both banners are cut at the first split. The listing banner (`api/movie.py:61`) keeps only the text before the next `url(`, so it is the text between `url(` and `)` only when that text contains no `url(`. The detail banner (`api/app.py:76`) stops only at a further `url('`: in `url('url(a')` the banner is `url(a`, but it is cut short when `x` contains `url('` or ends in `url(`.

## Model

| member | source | states |
|---|---|---|
| `Py.FindSpec` | api/movie.py:61 | the first cut of `split` is at the first occurrence of the separator, and there is one exactly when the separator occurs |
| `Py.SplitJoin` | api/movie.py:61 | joining the pieces of `s.split(sep)` with `sep` gives back `s` |
| `Py.SplitPiecesFree` | api/movie.py:61 | no piece of `s.split(sep)` contains `sep` |
| `Py.SplitCount` | api/movie.py:61 | `s.split(sep)` has two or more pieces exactly when `sep in s`, so `[1]` is defined exactly then |
| `Py.SplitFirst` | api/movie.py:61 | `[0]` of the split is the text before the first occurrence, or all of `s` |
| `Py.Item` | api/movie.py:61 | `parts[k]` is defined exactly when `k < len(parts)`, and raises IndexError otherwise |
| `Py.LastPiece` | api/app.py:19 | `s.split(sep)[-1]` has no `sep`, ends `s`, is `s` when `sep` is absent, and follows an occurrence of `sep` otherwise |
| `Py.Strip` | api/movie.py:61 | `strip(c)` leaves a string that neither starts nor ends with `c` |
| `Py.StripAt` | api/movie.py:61 | `strip(c)` removes margins made only of `c` |
| `Py.StripUnique` | api/movie.py:61 | the stripped string is the only slice with all-`c` margins and no `c` at either end |
| `Py.StripIdempotent` | api/movie.py:61 | stripping twice is stripping once |
| `Py.StripWrapped` | api/movie.py:61 | one more `c` at each end does not change the result of `strip(c)` |
| `Soup.GetText` | api/movie.py:49 | `select_one(sel).get_text(strip=True)` raises AttributeError exactly when nothing matched |
| `Http.ArgGet` | api/app.py:56 | `request.args.get(key)` is `None` exactly when the key is absent, and the argument's value otherwise |
| `Soup.Subscript` | api/movie.py:57 | `select_one(sel)[name]` raises TypeError when nothing matched and KeyError when the attribute is missing |
| `Http.CollectAll` | api/movie.py:45-76 | collecting records one per fragment yields as many records as fragments |
| `Http.CollectAllOk` | api/movie.py:48-76 | the listing loop succeeds exactly when every fragment does, and record `i` is fragment `i`'s record |
| `Http.CollectAllErr` | api/movie.py:48-76 | a failing listing fails with the fault of the first fragment that faults |
| `Http.CollectAllStops` | api/movie.py:48-76 | once a fragment has faulted, the later fragments change nothing |
| `Http.Listing` | api/movie.py:37-45 | a non-200 answer gives the error body with 500 and nothing else does; a produced list has one record per match |
| `Http.ListingRecords` | api/movie.py:48-78 | after a 200 answer: one record per match in document order, or the first fragment's fault |
| `Http.CollectRecords` | api/movie.py:43-78 | the append loop (status check, loop over matches, early exit on a fault) computes `Listing` |
| `MovieApi.CategoryNames` | api/movie.py:11-31 | the table has 19 entries with pairwise distinct names |
| `MovieApi.CategoryIds` | api/movie.py:11-31 | every genre id is a non-empty run of decimal digits, and the ids are pairwise distinct |
| `MovieApi.LookupSpec` | api/movie.py:91 | `categories.get(name)` is the listed name's id, and `None` exactly for names not in the table |
| `MovieApi.FalsyIdIsUnknown` | api/movie.py:91-94 | `not category_id` holds exactly when the name is not in the table |
| `MovieApi.ApiGetCategories` | api/movie.py:101-103 | `/api/categories` lists the table's names in table order |
| `MovieApi.CategoriesAccepted` | api/movie.py:87-103 | a name is listed by `/api/categories` exactly when `/api/get_by_category` accepts it |
| `MovieApi.BannerFromStyle` | api/movie.py:61 | the listing banner raises IndexError exactly when the style has no `url(` |
| `MovieApi.BannerHasNoParen` | api/movie.py:61 | a listing banner never contains `)` |
| `MovieApi.BannerOfUrl` | api/movie.py:61 | for `a + "url(" + x + ")" + b` with no `url(` in `a` or `x` and no `)` in `x`, the banner is `x` with `'` runs stripped |
| `MovieApi.BannerQuotedOrNot` | api/movie.py:61 | for `a + "url('" + x + "')" + b` and `a + "url(" + x + ")" + b` with no `url(` in `a` or `x`, no `)` in `x` and no quote at either end of `x`, both banners are `x` |
| `MovieApi.PlayUrl` | api/movie.py:64 | `play_url` is `None` exactly when `.play a` is absent, and is its `href` otherwise |
| `MovieApi.ExtractInfoFilme` | api/movie.py:66-76 | a listing record has exactly the nine keys |
| `MovieApi.InfoFilmeComplete` | api/movie.py:49-64 | a block gives a record exactly when all six texts, the cover `src`, a `style` containing `url(` and any `.play a` `href` are present |
| `MovieApi.InfoFilmeFields` | api/movie.py:49-76 | each field of a listing record is the text, attribute or banner it was read from |
| `MovieApi.InfoFilmeFaults` | api/movie.py:49-64 | an incomplete block raises the exception of its first missing piece, in reading order |
| `MovieApi.PageOf` | api/movie.py:85 | `request.args.get('page', 1)` is the default 1 exactly when `page` is absent, and the raw argument otherwise |
| `MovieApi.GetMoviesByCategory` | api/movie.py:34-78 | one request for the genre id and page, and the listing of `.info-filme` blocks of its answer |
| `MovieApi.ApiGetByCategory` | api/movie.py:81-98 | missing or empty category: 400 "Nenhuma categoria fornecida." and no request; unknown name: 400 "Categoria inválida." and no request; otherwise one request with `genre = categories[name]` and `page` defaulting to 1 |
| `AppApi.MovieId` | api/app.py:19 | `movie_url.split('/')[-1]` contains no `/` and ends the link; `MovieIdShape` completes the description |
| `AppApi.MovieIdShape` | api/app.py:19 | the movie id has no `/` and ends the link; the link is the id when it has no `/`, and otherwise prefix + "/" + id |
| `AppApi.MovieIdTrailingSlash` | api/app.py:39 | a link ending in `/` gives the empty id |
| `AppApi.ExtractLinkItem` | api/app.py:21-25 | a listing record has exactly the keys `titulo`, `capa`, `url` |
| `AppApi.LinkItemFields` | api/app.py:18-25 | a record exists exactly when `a` has `href` and `img` has `src`; `titulo` is the id and `url` the unchanged `href`; the `a` faults come before the `img` faults |
| `AppApi.GetMoviesByCategory` | api/app.py:9-27 | one request for the category page, and the listing of its `.movie-item` blocks |
| `AppApi.SearchMovies` | api/app.py:29-47 | one request for the search page, and the listing of its `.suggested-item` blocks |
| `AppApi.ApiGetCategory` | api/app.py:49-52 | `/api/category/<category>` answers with that category's listing |
| `AppApi.ApiSearch` | api/app.py:54-60 | missing or empty query: 400 "Nenhum termo de pesquisa fornecido" and no request; otherwise one search request and its listing |
| `AppApi.DetailText` | api/app.py:69-74 | each optional text field is `None` exactly when its selector matches nothing, and the node's text otherwise |
| `AppApi.BannerStyle` | api/app.py:75 | the style read for the banner is `None` exactly when there is no `.poster-m` or it has no `style`, and that attribute otherwise |
| `AppApi.DetailBanner` | api/app.py:75-76 | the detail banner is `None` exactly for a missing or empty style, and raises IndexError exactly when a non-empty style has no `url('` |
| `AppApi.DetailBannerOfUrl` | api/app.py:76 | for `a + "url('" + x + "')" + b` with no `url('` in `a`, no `')` in `x` and no `url('` in `x + "'"`, the detail banner is `x` |
| `AppApi.DetailBannerUnquoted` | api/app.py:76 | a non-empty style without any quote, such as an unquoted `url(x)`, makes the detail banner raise IndexError |
| `AppApi.MovieDetails` | api/app.py:64-88 | a non-200 answer gives the error body with 500 and nothing else does; a detail record has exactly the seven keys |
| `AppApi.GetMovieDetails` | api/app.py:62-88 | one request, for `MOVIE_URL + movie_id`, and the detail record of its answer |
| `AppApi.ApiGetMovie` | api/app.py:90-93 | `/api/movie/<movie_id>` sends that one request and answers with its detail record, whatever it ended in |
| `AppApi.DetailFields` | api/app.py:69-86 | after a 200 answer only the banner can fault; each text field is `None` exactly when its node is absent; there is no `capa` and no `play_url` |
| `AppApi.DetailWithoutBanner` | api/app.py:75-76 | a page without `.poster-m` or without its `style` does not fault and has a `None` banner |
| `AppApi.DetailEmptyPage` | api/app.py:69-86 | a page on which nothing matches gives a record whose seven fields are all `None` |

## Left out

- The HTTP fetch (`requests.get`), URL construction and the percent-encoding of the query. These are network I/O and library code. The site is the function parameter `upstream`, and a request records only its page kind and its arguments.
- HTML parsing, CSS selection and `get_text(strip=True)`. These belong to BeautifulSoup. A fragment is a map from selector to its first matching node, a document lists the matching fragments per selector, and a node's text is already the stripped text.
- Flask routing, `request.args` parsing, `jsonify` and `app.run`. Query arguments are a `map<string, string>`. A route's answer is a `Reply`. The `(dict, 500)` pair and an uncaught exception are the `Outcome` values `UpstreamFailed` and `Raised`. How Flask serialises them (the pair through `jsonify`, an exception as a server error) is not modelled.
- The key order of the JSON objects. Records are maps, so only their key sets and values are stated.
- `str.split` with an empty separator, which Python rejects with ValueError. The code splits only on literal separators.
- The `page` argument is passed upstream as it is (`PageGiven(raw)`), or as the integer 1 (`DefaultPage`). Its value is not checked, because the code does not check it.
- BannerOfUrl: states the result only for a style whose text between `url(` and `)` contains no `url(`. When it does contain one, the first split stops at that inner `url(`.
- DetailBannerOfUrl: states the result only when no `url('` starts inside `x + "'"`. That is exactly when the first split does not stop inside the banner: `x = "url("` gives the empty banner, because the split stops at the inner `url('`.
