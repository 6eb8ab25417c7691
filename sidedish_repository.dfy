/** The response-to-result mapping of the side-dish repository: the closures
    that `loadMenu` and `loadDetail` apply to every decoded response. */
module SidedishRepository {
  import opened Api
  import Publisher

  /** Decoded envelope of the menu endpoint. Its type is declared outside
      SidedishRepositoryImpl.swift; `body` is modelled as optional, and a
      non-optional body is the `Some` case. */
  datatype SidedishApiResult<+T> = SidedishApiResult(statusCode: int, body: Option<T>)

  /** Decoded envelope of the detail endpoint, declared outside
      SidedishRepositoryImpl.swift. It is modelled with a status code, which
      the mapping never reads. */
  datatype MenuDetailApi<+T> = MenuDetailApi(statusCode: int, data: Option<T>)

  /** The inputs `loadMenu` turns into a success: no error, an envelope, and a
      status code in 200..<300. */
  predicate MenuAccepted<T>(result: DecodeResult<SidedishApiResult<T>>) {
    result.error.None? && result.value.Some? && IsSuccessStatus(result.value.value.statusCode)
  }

  /** The inputs `loadDetail` turns into a success: no error and an envelope. */
  predicate DetailAccepted<T>(result: DecodeResult<MenuDetailApi<T>>) {
    result.error.None? && result.value.Some?
  }

  /** The closure of `loadMenu`. */
  function LoadMenu<T>(result: DecodeResult<SidedishApiResult<T>>): (r: ApiResult<T>)
    ensures r.HasNoError() <==> MenuAccepted(result)
    ensures r.HasNoError() ==> r.value == result.value.value.body
    ensures r.Valid()
    ensures !r.HasNoError() ==> r.error == (if result.error.Some? then result.error else Some(StatusCodeError))
  {
    if result.error.Some? then
      ApiResult(None, result.error)
    else if result.value.Some? && IsSuccessStatus(result.value.value.statusCode) then
      ApiResult(result.value.value.body, None)
    else
      ApiResult(None, Some(StatusCodeError))
  }

  /** The closure of `loadDetail`. */
  function LoadDetail<T>(result: DecodeResult<MenuDetailApi<T>>): (r: ApiResult<T>)
    ensures r.HasNoError() <==> DetailAccepted(result)
    ensures r.HasNoError() ==> r.value == result.value.value.data
    ensures r.Valid()
    ensures !r.HasNoError() ==> r.error == (if result.error.Some? then result.error else Some(StatusCodeError))
  {
    if result.error.Some? then
      ApiResult(None, result.error)
    else if result.value.Some? then
      ApiResult(result.value.value.data, None)
    else
      ApiResult(None, Some(StatusCodeError))
  }

  // ----- loadMenu -----

  /** A decoded error wins over whatever envelope came with it. */
  lemma MenuErrorFirst<T>(e: SessionError, v: Option<SidedishApiResult<T>>)
    ensures LoadMenu(DecodeResult(v, Some(e))) == ApiResult(None, Some(e))
  {
  }

  /** No error and a status code in range: the body, and no error. */
  lemma MenuSuccess<T>(code: int, body: Option<T>)
    requires IsSuccessStatus(code)
    ensures LoadMenu(DecodeResult(Some(SidedishApiResult(code, body)), None)) == ApiResult(body, None)
  {
  }

  /** No error and a status code out of range: `statusCodeError`, whatever the body. */
  lemma MenuBadStatus<T>(code: int, body: Option<T>)
    requires !IsSuccessStatus(code)
    ensures LoadMenu(DecodeResult(Some(SidedishApiResult(code, body)), None)) == ApiResult(None, Some(StatusCodeError))
  {
  }

  /** The edges of the range: 200 succeeds, 199 and 300 fail. */
  lemma MenuStatusBoundaries<T>(body: Option<T>)
    ensures LoadMenu(DecodeResult(Some(SidedishApiResult(200, body)), None)).HasNoError()
    ensures LoadMenu(DecodeResult(Some(SidedishApiResult(199, body)), None)) == ApiResult(None, Some(StatusCodeError))
    ensures LoadMenu(DecodeResult(Some(SidedishApiResult(300, body)), None)) == ApiResult(None, Some(StatusCodeError))
    ensures LoadMenu(DecodeResult(Some(SidedishApiResult(299, body)), None)).HasNoError()
  {
  }

  /** Neither error nor envelope: `statusCodeError`. */
  lemma MenuNothingDecoded<T>()
    ensures LoadMenu<T>(DecodeResult(None, None)) == ApiResult(None, Some(StatusCodeError))
  {
  }

  /** With a body present, a menu result is exactly one of success or failure. */
  lemma MenuExactlyOne<T>(result: DecodeResult<SidedishApiResult<T>>)
    requires result.value.Some? ==> result.value.value.body.Some?
    ensures LoadMenu(result).ExactlyOne()
  {
  }

  // ----- loadDetail -----

  /** A decoded error wins over whatever envelope came with it. */
  lemma DetailErrorFirst<T>(e: SessionError, v: Option<MenuDetailApi<T>>)
    ensures LoadDetail(DecodeResult(v, Some(e))) == ApiResult(None, Some(e))
  {
  }

  /** Any envelope without an error is a success with its `data`, for every
      status code. */
  lemma DetailIgnoresStatus<T>(code: int, data: Option<T>)
    ensures LoadDetail(DecodeResult(Some(MenuDetailApi(code, data)), None)) == ApiResult(data, None)
  {
  }

  /** Neither error nor envelope: `statusCodeError`. */
  lemma DetailNothingDecoded<T>()
    ensures LoadDetail<T>(DecodeResult(None, None)) == ApiResult(None, Some(StatusCodeError))
  {
  }

  /** An envelope that decodes with status code 204 and no data is not turned
      into `statusCodeError`: the result has neither value nor error. */
  lemma DetailNoContentIsNotBadStatus<T>()
    ensures LoadDetail<T>(DecodeResult(Some(MenuDetailApi(204, None)), None)) == ApiResult(None, None)
  {
  }

  /** With data present, a detail result is exactly one of success or failure. */
  lemma DetailExactlyOne<T>(result: DecodeResult<MenuDetailApi<T>>)
    requires result.value.Some? ==> result.value.value.data.Some?
    ensures LoadDetail(result).ExactlyOne()
  {
  }

  /** The two closures disagree on the same response exactly when there is no
      error, an envelope, and a status code outside 200..<300. */
  lemma MenuDetailDifferOnlyOnStatus<T>(err: Option<SessionError>, code: int, payload: Option<T>, present: bool)
    ensures var v := if present then Some(SidedishApiResult(code, payload)) else None;
            var w := if present then Some(MenuDetailApi(code, payload)) else None;
            (LoadMenu(DecodeResult(v, err)) != LoadDetail(DecodeResult(w, err)))
            <==> (err.None? && present && !IsSuccessStatus(code))
  {
  }

  // ----- the publishers -----

  /** Number of emitted results that carry no error (with or without a value). */
  function ErrorFreeCount<T>(rs: seq<ApiResult<T>>): nat {
    if rs == [] then 0 else (if rs[0].HasNoError() then 1 else 0) + ErrorFreeCount(rs[1..])
  }

  /** Number of upstream menu responses in the success range. */
  function MenuAcceptedCount<T>(s: seq<DecodeResult<SidedishApiResult<T>>>): nat {
    if s == [] then 0 else (if MenuAccepted(s[0]) then 1 else 0) + MenuAcceptedCount(s[1..])
  }

  /** Number of upstream detail responses with an envelope and no error. */
  function DetailAcceptedCount<T>(s: seq<DecodeResult<MenuDetailApi<T>>>): nat {
    if s == [] then 0 else (if DetailAccepted(s[0]) then 1 else 0) + DetailAcceptedCount(s[1..])
  }

  /** The `loadMenu` publisher emits as many error-free results as there were
      accepted responses: a corollary of `Publisher.Map` and `LoadMenu`. */
  lemma {:induction false} MenuStreamErrorFree<T>(s: seq<DecodeResult<SidedishApiResult<T>>>)
    ensures ErrorFreeCount(Publisher.Map(LoadMenu, s)) == MenuAcceptedCount(s)
  {
    if s != [] {
      var r := Publisher.Map(LoadMenu, s);
      assert r[1..] == Publisher.Map(LoadMenu, s[1..]);
      MenuStreamErrorFree(s[1..]);
    }
  }

  /** The `loadDetail` publisher emits as many error-free results as there were
      responses with an envelope and no error: a corollary of `Publisher.Map`
      and `LoadDetail`. */
  lemma {:induction false} DetailStreamErrorFree<T>(s: seq<DecodeResult<MenuDetailApi<T>>>)
    ensures ErrorFreeCount(Publisher.Map(LoadDetail, s)) == DetailAcceptedCount(s)
  {
    if s != [] {
      var r := Publisher.Map(LoadDetail, s);
      assert r[1..] == Publisher.Map(LoadDetail, s[1..]);
      DetailStreamErrorFree(s[1..]);
    }
  }
}
