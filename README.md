# Side-dish repository: response-to-result mapping

This project models the core of the side-dish app's REST repository,
`SidedishRepositoryImpl`. It has two endpoints, `loadMenu` (menus of one
category) and `loadDetail` (one dish by hash). Each one sends a request,
decodes the response, and hands every decoded response to a closure that
builds a typed `ApiResult`, a pair of an optional value and an optional
`SessionError`. The model is those two closures, written as pure functions,
together with the Combine `map` that applies each closure to everything the
request publisher emits.

- `api.dfy` (module `Api`): `Option`, `SessionError`, `ApiResult` (with its
  invariants `Valid`, meaning a failure carries no value, and `ExactlyOne`),
  `DecodeResult`, and the success range 200..<300 of HTTP status codes.
- `publisher.dfy` (module `Publisher`): the elements a publisher emits, as a
  finite sequence, and `map` over them.
- `sidedish_repository.dfy` (module `SidedishRepository`): the two decoded
  envelopes, the closures `LoadMenu` and `LoadDetail`, and the lemmas about them.

The types `ApiResult`, `SessionError`, `SidedishAPIResult` and
`MenuDetailApi` are declared outside `SidedishRepositoryImpl.swift` and are
not modelled as declared. They are modelled as follows.
- `SessionError` has the case `statusCodeError`, used by the repository code.
  Every other case is an opaque `Other(id)`.
- The envelope's `body` / `data` field is modelled as optional. Swift's
  `ApiResult(value: result.body, error: nil)` compiles whether that field is
  optional or not. A non-optional field is the `Some` case. This is why
  `MenuExactlyOne` and `DetailExactlyOne` assume that a payload is present.
- The detail envelope is modelled with a status code. The detail closure never
  reads it.

"Success" below means a result with no error (`HasNoError`). When the payload
field is optional, such a result can also have no value.

A caller might expect a detail response with status 204 and no data to become
`statusCodeError`, as the menu closure would make it. The detail closure checks
no status code. So an envelope that decodes with status code 204 and no data
becomes a result with neither a value nor an error
(`DetailNoContentIsNotBadStatus`; `MenuDetailDifferOnlyOnStatus` gives the
general difference). What a 204 with an empty HTTP body becomes depends on the
decoder, which is not modelled. If the decoder reports an error, that error is
passed on (`DetailErrorFirst`). If it yields neither an envelope nor an error,
the result is `statusCodeError` (`DetailNothingDecoded`).

The two stream-count lemmas, `MenuStreamErrorFree` and `DetailStreamErrorFree`,
are corollaries of `Publisher.Map` and the closures' contracts. They add no
behaviour of their own.

## Model

| member | source | states |
|---|---|---|
| SidedishRepository.LoadMenu | sidedish/sidedish/Sources/Repository/Sidedish/SidedishRepositoryImpl.swift:16-26 | success exactly when there is no error, an envelope is present and its status code is in 200..<300; a success carries the body; a failure carries no value; the failure's error is the decoded error if there is one, otherwise `statusCodeError` |
| SidedishRepository.LoadDetail | sidedish/sidedish/Sources/Repository/Sidedish/SidedishRepositoryImpl.swift:33-43 | success exactly when there is no error and an envelope is present, whatever its status code; a success carries `data`; a failure carries no value; the failure's error is the decoded error if there is one, otherwise `statusCodeError` |
| SidedishRepository.MenuErrorFirst | sidedish/sidedish/Sources/Repository/Sidedish/SidedishRepositoryImpl.swift:17-19 | a decoded error is returned unchanged with no value, whatever the envelope holds |
| SidedishRepository.MenuSuccess | sidedish/sidedish/Sources/Repository/Sidedish/SidedishRepositoryImpl.swift:20-22 | no error and a status code in range give exactly the body and no error |
| SidedishRepository.MenuBadStatus | sidedish/sidedish/Sources/Repository/Sidedish/SidedishRepositoryImpl.swift:20-25 | no error and a status code out of range give `statusCodeError` and no value, whatever the body |
| SidedishRepository.MenuStatusBoundaries | sidedish/sidedish/Sources/Repository/Sidedish/SidedishRepositoryImpl.swift:21 | 200 and 299 succeed; 199 and 300 give `statusCodeError` |
| SidedishRepository.MenuNothingDecoded | sidedish/sidedish/Sources/Repository/Sidedish/SidedishRepositoryImpl.swift:20-25 | neither error nor envelope gives `statusCodeError` and no value |
| SidedishRepository.MenuExactlyOne | sidedish/sidedish/Sources/Repository/Sidedish/SidedishRepositoryImpl.swift:17-25 | when a body is present, the menu result has exactly one of a value and an error |
| SidedishRepository.DetailErrorFirst | sidedish/sidedish/Sources/Repository/Sidedish/SidedishRepositoryImpl.swift:34-36 | a decoded error is returned unchanged with no value, even when an envelope is present |
| SidedishRepository.DetailIgnoresStatus | sidedish/sidedish/Sources/Repository/Sidedish/SidedishRepositoryImpl.swift:38-39 | any envelope without an error gives its `data` and no error, for every status code |
| SidedishRepository.DetailNothingDecoded | sidedish/sidedish/Sources/Repository/Sidedish/SidedishRepositoryImpl.swift:40-42 | neither error nor envelope gives `statusCodeError` and no value |
| SidedishRepository.DetailNoContentIsNotBadStatus | sidedish/sidedish/Sources/Repository/Sidedish/SidedishRepositoryImpl.swift:38-39 | a 204 envelope without data gives a result with neither a value nor an error, not `statusCodeError` |
| SidedishRepository.DetailExactlyOne | sidedish/sidedish/Sources/Repository/Sidedish/SidedishRepositoryImpl.swift:34-42 | when data is present, the detail result has exactly one of a value and an error |
| SidedishRepository.MenuDetailDifferOnlyOnStatus | sidedish/sidedish/Sources/Repository/Sidedish/SidedishRepositoryImpl.swift:16-43 | on the same response, the two closures give different results exactly when there is no error, an envelope is present and its status code is outside 200..<300 |
| Publisher.Map | sidedish/sidedish/Sources/Repository/Sidedish/SidedishRepositoryImpl.swift:15-16 | the mapped publisher emits one result per upstream element, in order: the closure applied to that element |
| SidedishRepository.MenuStreamErrorFree | sidedish/sidedish/Sources/Repository/Sidedish/SidedishRepositoryImpl.swift:14-27 | the `loadMenu` publisher emits as many error-free results as there were responses with no error, an envelope, and a status code in range |
| SidedishRepository.DetailStreamErrorFree | sidedish/sidedish/Sources/Repository/Sidedish/SidedishRepositoryImpl.swift:31-44 | the `loadDetail` publisher emits as many error-free results as there were responses with no error and an envelope |

## Left out

- The request (`request(...)`) and the JSON decoding (`decode(...)`) are not modelled. They do HTTP I/O and JSON parsing in `NetworkRepository`, which is not modelled. Their result, a `DecodeResult`, is an input of the model.
- `SidedishTarget` and the endpoint paths are not modelled. They belong to the request layer.
- Combine's asynchrony, completion and cancellation are not modelled, and neither is `eraseToAnyPublisher`. The model keeps only the elements a publisher emits, in order.
- The login screen (`LoginViewController`) is not modelled. It is UIKit layout, Combine subscriptions and a call into the Google sign-in SDK.
- The login view model (`LoginViewModel`) is not modelled. It is reactive wiring around the Firebase and Google SDKs and a process-wide user store. Its only local logic is optional guards on SDK values.
