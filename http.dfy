/**
 * The HTTP side of the API: the requests the handlers send upstream, the responses they get back,
 * the JSON they produce, and the one loop shape every listing handler shares, turning each
 * matched fragment into a record, in order, and giving up at the first fault.
 */
module Http {
  import opened Wrappers
  import opened Py
  import opened Soup

  /** The JSON values a record holds: a string or `null` (Python's `None`). */
  datatype JValue = JNull | JStr(s: string)

  /** A JSON object (a Python dict with string keys). */
  type Record = map<string, JValue>

  /** The body `{"error": message}` every error response carries. */
  function ErrorBody(message: string): Record {
    map["error" := JStr(message)]
  }

  /** The body returned when the upstream site does not answer 200. */
  const FetchError: Record := ErrorBody("Falha na requisição ao servidor")

  /** The status returned with `FetchError`. */
  const ServerError: int := 500

  /** The status of a rejected client request. */
  const BadRequest: int := 400

  /** `request.args.get(key)`. */
  function ArgGet(args: map<string, string>, key: string): (r: Option<string>)
    ensures r.Some? <==> key in args
    ensures r.Some? ==> r.value == args[key]
  {
    if key in args then Some(args[key]) else None
  }

  /** The `page` query argument: the integer 1 when it is absent, its raw text otherwise. */
  datatype PageArg = DefaultPage | PageGiven(raw: string)

  /** The upstream pages the handlers fetch. */
  datatype Request =
    | GenreListing(page: PageArg, genre: string)    // BASE_URL with `page` and `genre` parameters
    | CategoryPage(category: string)                // .../public/categoria/<category>
    | SearchPage(query: string)                     // .../public/pesquisa?search=<query>
    | DetailPage(movieId: string)                   // MOVIE_URL + <movie id>

  /** An upstream answer: its status code and its parsed body. */
  datatype Response = Response(status: int, doc: Document)

  /** The upstream site, as a function from request to response. */
  type Upstream = Request -> Response

  /** What a scraping function ends in: the error pair, an uncaught exception, or its value. */
  datatype Outcome<T> =
    | UpstreamFailed(body: Record, status: int)
    | Raised(fault: Exception)
    | Produced(value: T)

  /** What a route answers: a 400 it decides itself, or whatever the scraping function ended in. */
  datatype Reply<T> =
    | ClientError(status: int, body: Record)
    | Forwarded(outcome: Outcome<T>)

  /** The per-fragment body of a listing loop. */
  type Extractor = Fragment -> Result<Record, Exception>

  /**
   * Running `extract` on `items` from first to last, appending each record, and stopping at the
   * first fault. Defined from the end, the way a loop accumulates it.
   */
  function CollectAll(items: seq<Fragment>, extract: Extractor): (r: Result<seq<Record>, Exception>)
    ensures r.Ok? ==> |r.value| == |items|
    decreases |items|
  {
    if items == [] then Ok([])
    else
      var front :- CollectAll(items[..|items| - 1], extract);
      var last :- extract(items[|items| - 1]);
      Ok(front + [last])
  }

  /** `CollectAll` succeeds exactly when every item does, and then holds each item's record at its position. */
  lemma {:induction false} CollectAllOk(items: seq<Fragment>, extract: Extractor)
    ensures CollectAll(items, extract).Ok? <==> forall i :: 0 <= i < |items| ==> extract(items[i]).Ok?
    ensures CollectAll(items, extract).Ok? ==>
      forall i :: 0 <= i < |items| ==> CollectAll(items, extract).value[i] == extract(items[i]).value
    decreases |items|
  {
    if items != [] {
      var front := items[..|items| - 1];
      CollectAllOk(front, extract);
      assert forall i :: 0 <= i < |front| ==> front[i] == items[i];
    }
  }

  /** Item `i` is the first of `items` that faults, and its fault is `e`. */
  predicate FirstFaultAt(items: seq<Fragment>, extract: Extractor, i: int, e: Exception) {
    && 0 <= i < |items| && extract(items[i]) == Err(e)
    && forall j :: 0 <= j < i ==> extract(items[j]).Ok?
  }

  /** When `CollectAll` fails, it fails with the fault of the first item that faults. */
  lemma {:induction false} CollectAllErr(items: seq<Fragment>, extract: Extractor)
    requires CollectAll(items, extract).Err?
    ensures exists i :: FirstFaultAt(items, extract, i, CollectAll(items, extract).error)
    decreases |items|
  {
    var front := items[..|items| - 1];
    var n := |items| - 1;
    assert forall j :: 0 <= j < |front| ==> front[j] == items[j];
    if CollectAll(front, extract).Err? {
      CollectAllErr(front, extract);
      var i :| FirstFaultAt(front, extract, i, CollectAll(front, extract).error);
      assert FirstFaultAt(items, extract, i, CollectAll(items, extract).error);
    } else {
      CollectAllOk(front, extract);
      assert FirstFaultAt(items, extract, n, CollectAll(items, extract).error);
    }
  }

  /** Once a prefix of the items has faulted, the later items change nothing. */
  lemma {:induction false} CollectAllStops(items: seq<Fragment>, k: nat, extract: Extractor)
    requires k <= |items| && CollectAll(items[..k], extract).Err?
    ensures CollectAll(items, extract) == CollectAll(items[..k], extract)
    decreases |items|
  {
    if k < |items| {
      var front := items[..|items| - 1];
      assert front[..k] == items[..k];
      CollectAllStops(front, k, extract);
    } else {
      assert items[..k] == items;
    }
  }

  /**
   * A listing function: fail with `FetchError` and 500 unless upstream answered 200, otherwise
   * collect one record per fragment matching `sel`.
   */
  function Listing(resp: Response, sel: Selector, extract: Extractor): (out: Outcome<seq<Record>>)
    ensures out.UpstreamFailed? <==> resp.status != 200
    ensures out.UpstreamFailed? ==> out.body == FetchError && out.status == ServerError
    ensures out.Produced? ==> |out.value| == |Select(resp.doc, sel)|
  {
    if resp.status != 200 then UpstreamFailed(FetchError, ServerError)
    else
      match CollectAll(Select(resp.doc, sel), extract)
      case Err(e) => Raised(e)
      case Ok(records) => Produced(records)
  }

  /**
   * After a 200 answer a listing produces one record per matching fragment, in document order,
   * when no fragment faults; otherwise it raises the fault of the first fragment that does.
   */
  lemma ListingRecords(resp: Response, sel: Selector, extract: Extractor)
    requires resp.status == 200
    ensures var items := Select(resp.doc, sel); var out := Listing(resp, sel, extract);
      && (out.Produced? <==> forall i :: 0 <= i < |items| ==> extract(items[i]).Ok?)
      && (out.Produced? ==> forall i :: 0 <= i < |items| ==> out.value[i] == extract(items[i]).value)
      && (out.Raised? ==> exists i :: FirstFaultAt(items, extract, i, out.fault))
  {
    var items := Select(resp.doc, sel);
    CollectAllOk(items, extract);
    if CollectAll(items, extract).Err? {
      CollectAllErr(items, extract);
    }
  }

  /**
   * The loop every listing function runs: walk the matched fragments, append each record, and
   * stop with the first fault. It computes `Listing`.
   */
  method CollectRecords(resp: Response, sel: Selector, extract: Extractor) returns (out: Outcome<seq<Record>>)
    ensures out == Listing(resp, sel, extract)
  {
    if resp.status != 200 {
      return UpstreamFailed(FetchError, ServerError);
    }
    var items := Select(resp.doc, sel);
    var records: seq<Record> := [];
    var i := 0;
    while i < |items|
      invariant 0 <= i <= |items|
      invariant CollectAll(items[..i], extract) == Ok(records)
    {
      var record := extract(items[i]);
      assert items[..i + 1][..i] == items[..i];
      if record.Err? {
        CollectAllStops(items, i + 1, extract);
        return Raised(record.error);
      }
      records := records + [record.value];
      i := i + 1;
    }
    assert items[..i] == items;
    out := Produced(records);
  }
}
