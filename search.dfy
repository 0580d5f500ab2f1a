/** The arithmetic and mapping around the board search: defaults, the
    offset and size of the request, the normalisation of the hit count,
    the mapping of hits to results, and the page count.  The search engine
    itself is outside the model: its response is an input. */
module Search {
  import opened Common

  const DefaultPage: int := 1
  const DefaultLimit: int := 10

  /** A search request as received; an absent page or limit is undefined. */
  datatype SearchBoardDto = SearchBoardDto(query: string, page: Option<int>, limit: Option<int>)

  /** What is sent to the engine: the query, `from` and `size`. */
  datatype SearchRequest = SearchRequest(query: string, from: int, size: int)

  /** The indexed board document. */
  datatype BoardDocument = BoardDocument(
    id: int, title: string, content: string, userId: int, userName: string, createdAt: int, updatedAt: int)

  datatype Highlight = Highlight(title: Option<seq<string>>, content: Option<seq<string>>)

  /** One hit; the engine may send a null score. */
  datatype SearchHit = SearchHit(source: BoardDocument, score: Option<real>, highlight: Option<Highlight>)

  /** `hits.total`, which the engine sends either as a number or as an
      object with a `value`. */
  datatype HitsTotal = TotalNumber(n: int) | TotalObject(value: int)

  datatype EngineResponse = EngineResponse(total: HitsTotal, hits: seq<SearchHit>)

  datatype SearchResult = SearchResult(
    id: int, title: string, content: string, userId: int, userName: string,
    createdAt: int, updatedAt: int, score: real, highlight: Option<Highlight>)

  /** `Math.ceil(total / limit)` as a JavaScript number: a division by zero
      gives Infinity, -Infinity or NaN. */
  datatype PageCount = Pages(n: int) | PositiveInfinity | NegativeInfinity | NotANumber

  datatype Meta = Meta(total: int, page: int, limit: int, totalPages: PageCount)

  datatype SearchResponse = SearchResponse(data: seq<SearchResult>, meta: Meta)

  /** The destructuring defaults `page = 1` and `limit = 10`, which apply
      only to an absent value. */
  function PageOf(dto: SearchBoardDto): (p: int)
    ensures dto.page.None? ==> p == DefaultPage
    ensures dto.page.Some? ==> p == dto.page.value
  {
    dto.page.GetOr(DefaultPage)
  }

  function LimitOf(dto: SearchBoardDto): (l: int)
    ensures dto.limit.None? ==> l == DefaultLimit
    ensures dto.limit.Some? ==> l == dto.limit.value
  {
    dto.limit.GetOr(DefaultLimit)
  }

  /** `(page - 1) * limit`: the number of hits on the pages before `page`. */
  function Offset(page: int, limit: int): (from: int)
    ensures page >= 1 && limit >= 0 ==> from >= 0
    ensures limit > 0 ==> from % limit == 0 && from / limit == page - 1
  {
    MultipleDivides(page - 1, limit);
    (page - 1) * limit
  }

  /** `q * b` is a multiple of `b` with quotient `q`. */
  lemma MultipleDivides(q: int, b: int)
    ensures b > 0 ==> (q * b) % b == 0 && (q * b) / b == q
  {
    if b > 0 {
      var m := q * b;
      DivModUnique(m, b, q, 0);
    }
  }

  /** Euclidean division has only one quotient and remainder. */
  lemma DivModUnique(a: int, b: int, q: int, r: int)
    requires b > 0 && a == q * b + r && 0 <= r < b
    ensures a / b == q && a % b == r
  {
    var q', r' := a / b, a % b;
    assert a == q' * b + r';
    if q' > q {
      MulMonotone(q + 1, q', b);
      assert false;
    } else if q' < q {
      MulMonotone(q' + 1, q, b);
      assert false;
    }
  }

  /** The body sent to the engine. */
  function BuildRequest(dto: SearchBoardDto): (r: SearchRequest)
    ensures r.query == dto.query && r.size == LimitOf(dto)
    ensures r.from == Offset(PageOf(dto), LimitOf(dto))
    ensures dto.page.None? && dto.limit.None? ==> r.from == 0 && r.size == DefaultLimit
  {
    SearchRequest(dto.query, Offset(PageOf(dto), LimitOf(dto)), LimitOf(dto))
  }

  /** The hit count, whichever shape it came in. */
  function TotalOf(t: HitsTotal): (n: int)
    ensures t.TotalNumber? ==> n == t.n
    ensures t.TotalObject? ==> n == t.value
  {
    match t
    case TotalNumber(n) => n
    case TotalObject(v) => v
  }

  /** One hit as a result: the document's fields, the score or 0, and the
      highlight as sent. */
  function ResultOf(hit: SearchHit): (r: SearchResult)
    ensures r.id == hit.source.id && r.title == hit.source.title && r.content == hit.source.content
    ensures r.userId == hit.source.userId && r.userName == hit.source.userName
    ensures r.createdAt == hit.source.createdAt && r.updatedAt == hit.source.updatedAt
    ensures r.score == hit.score.GetOr(0.0) && r.highlight == hit.highlight
  {
    var d := hit.source;
    SearchResult(d.id, d.title, d.content, d.userId, d.userName, d.createdAt, d.updatedAt,
                 hit.score.GetOr(0.0), hit.highlight)
  }

  /** `hits.map(...)`: one result per hit, in the engine's order. */
  function MapHits(hits: seq<SearchHit>): (r: seq<SearchResult>)
    ensures |r| == |hits|
    ensures forall i :: 0 <= i < |hits| ==> r[i] == ResultOf(hits[i])
  {
    if hits == [] then [] else [ResultOf(hits[0])] + MapHits(hits[1..])
  }

  /** The ceiling of `a / b` for a nonzero divisor. */
  function CeilDiv(a: int, b: int): (q: int)
    requires b != 0
    ensures b > 0 ==> (q - 1) * b < a <= q * b
    ensures b < 0 ==> q * b <= a < (q - 1) * b
  {
    if b > 0 then
      var m := (-a) / b;
      assert -a == m * b + (-a) % b;
      assert (-m - 1) * b == -m * b - b;
      -m
    else
      var m := a / (-b);
      assert a == m * (-b) + a % (-b);
      assert (-m - 1) * b == m * (-b) - b;
      -m
  }

  /** `Math.ceil(total / limit)`. */
  function TotalPages(total: int, limit: int): (r: PageCount)
    ensures limit == 0 ==> r == (if total > 0 then PositiveInfinity else if total < 0 then NegativeInfinity else NotANumber)
    ensures limit > 0 ==> r.Pages? && (r.n - 1) * limit < total <= r.n * limit
    ensures limit < 0 ==> r.Pages? && r.n * limit <= total < (r.n - 1) * limit
  {
    if limit == 0 then
      if total > 0 then PositiveInfinity else if total < 0 then NegativeInfinity else NotANumber
    else
      Pages(CeilDiv(total, limit))
  }

  /** With a positive limit and a non-negative total, the pages numbered
      1 to totalPages each start at a hit, and every later page starts past
      the last hit. */
  lemma {:induction false} PagesCoverHits(total: int, limit: int, page: int)
    requires limit > 0 && total >= 0 && page >= 1
    ensures TotalPages(total, limit).n >= 0
    ensures page <= TotalPages(total, limit).n <==> Offset(page, limit) < total
  {
    var n := TotalPages(total, limit).n;
    if page <= n {
      MulMonotone(page - 1, n - 1, limit);
    } else {
      MulMonotone(n, page - 1, limit);
    }
  }

  lemma MulMonotone(x: int, y: int, b: int)
    requires x <= y && b >= 0
    ensures x * b <= y * b
  {
    assert y * b - x * b == (y - x) * b;
  }

  /** With a positive limit, an empty index has no pages. */
  lemma NoHitsNoPages(limit: int)
    requires limit > 0
    ensures TotalPages(0, limit) == Pages(0)
  {
    var n := TotalPages(0, limit).n;
    if n > 0 {
      MulMonotone(1, n - 1, limit);
    } else if n < 0 {
      MulMonotone(n, -1, limit);
    }
  }

  /** The response built from the engine's answer: the mapped hits, the
      normalised total, the requested page and limit echoed, and the page
      count. */
  function Respond(dto: SearchBoardDto, response: EngineResponse): (r: SearchResponse)
    ensures r.data == MapHits(response.hits) && |r.data| == |response.hits|
    ensures r.meta.total == TotalOf(response.total)
    ensures r.meta.page == PageOf(dto) && r.meta.limit == LimitOf(dto)
    ensures r.meta.totalPages == TotalPages(TotalOf(response.total), LimitOf(dto))
  {
    var total := TotalOf(response.total);
    SearchResponse(MapHits(response.hits), Meta(total, PageOf(dto), LimitOf(dto), TotalPages(total, LimitOf(dto))))
  }
}
