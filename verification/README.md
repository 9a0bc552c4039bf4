# Bond-yield acquisition (get_rate) in Dafny

The program estimates a municipality's annual debt service from a long-term
Government of Canada bond yield. The only logic with real branches is
`get_rate`, which gets that yield. It tries three sources in priority order:

1. It scrapes the Trading Economics page. It finds the element marked
   `id="market_last"` by plain text search. It takes the text between the
   next `>` and the following `<`, strips it and parses it as a float.
2. It reads the Bank of Canada Valet API (series V122544). It takes the `v`
   of the last observation in the `observations` list.
3. It falls back to the constant 3.86.

Any exception in a stage sends control to the next stage.

This project models `get_rate` as pure functions and proves properties about
it.

- `options.dfy` (`Options`) holds the `Option` type. A stage's `None` is
  "this stage raised or gave nothing".
- `pystr.dfy` (`PyStr`) models the Python `str` operations the scraper relies
  on, with CPython's edge cases:
  - `find` answers -1 when nothing is found. A negative `start` counts from
    the end.
  - A slice normalises negative and out-of-range bounds. A reversed window
    is empty.
  - `strip()` removes exactly the characters `str.isspace` accepts.
- `trading_economics.dfy` (`TradingEconomics`) models the three `find` calls
  (`Locate`), the extracted text (`MarkerValue`) and the scrape stage
  (`Stage`).
- `bank_of_canada.dfy` (`BankOfCanada`) models the decoded JSON body, the
  guarded `observations[-1]` lookup, the `["V122544"]["v"]` lookup and the
  API stage.
- `rate_resolver.dfy` (`RateResolver`) models the first-success waterfall
  (`FirstSuccess`, `Waterfall`), the three-way choice (`Resolve`) and
  `get_rate` itself (`GetRate`). `GetRate` returns the rate tagged with
  the source it came from.

The network, JSON decoding and Python's `float` are parameters:

- the page response is an `Option<Response>`, where `None` means
  `requests.get` raised;
- the API body is an `Option<Body>`, where `None` means the request or
  `response.json()` raised;
- `float` is a function `parse: string -> Option<real>`, where `None` means
  `float` raised.

Rates are Dafny `real`s. `get_rate` does no arithmetic on them, so it only
passes them through. Python's non-finite floats have no `real` counterpart;
see "Left out".

Two behaviours of the code as written are stated and proved, not smoothed
over:

- `UnclosedMarkerRestartsAtZero`: when no `>` follows the marker, `find`
  answers -1. So `start_val` is 0 and the window opens at the start of the
  page.
- `MarkerValue`: when no `<` follows `start_val`, `end_val` is -1. So the
  slice `text[start_val:-1]` leaves out the last character of the page.

In both cases the stage still hands that text to `float`.

## Model

| member | source | states |
|---|---|---|
| PyStr.Find | main.py:35-39 | `str.find` answers the lowest index at or after the normalised start where the needle occurs. It answers -1 only when there is no such index. |
| PyStr.FindCharacter | main.py:37-39 | For a one-character needle, the answer holds that character. No copy of it stands between the start and the answer, or the end of the text when the answer is -1. |
| PyStr.Contains | main.py:33-35 | The `in` test (`sub` occurs somewhere in `s`) passes exactly when `find` from 0 does not answer -1, so the marker index is never -1 once the test has passed. |
| PyStr.Slice | main.py:42 | A Python slice normalises both bounds (negative counts from the end, clamped to the string). Its result is the characters between them, or empty when the end lies before the start. |
| PyStr.SliceToMinusOne | main.py:39-42 | A slice ending at -1 covers the text up to, but not including, its last character. |
| PyStr.Strip | main.py:42 | `strip()` returns a window of its input that neither starts nor ends with whitespace, and everything outside that window is whitespace. |
| PyStr.StripUnique | main.py:42 | Any window with those properties is the result of `strip()`, so the contract of `Strip` determines it. |
| PyStr.StripIdempotent | main.py:42 | Stripping an already stripped string changes nothing. |
| PyStr.StripKeepsOut | main.py:42 | `strip()` introduces no character its input lacks. |
| TradingEconomics.Locate | main.py:35-39 | The marker position is -1 or an index of the text; it is the first occurrence of the marker, and -1 exactly when there is none. `start_val` is one past the first `>` from the marker, or 0 when there is none. `end_val` is the first `<` from `start_val`, or -1. |
| TradingEconomics.ValueStartsPastMarker | main.py:35-37 | When a `>` follows the marker, `start_val` is at least the marker position plus the marker length plus one. The character before it is that `>`, and no other `>` lies between the marker and it. |
| TradingEconomics.UnclosedMarkerRestartsAtZero | main.py:37 | With no `>` after the marker, `start_val` is 0, so the window opens at the page start. |
| TradingEconomics.ValueBetweenBrackets | main.py:39-42 | When a `<` follows `start_val`, the extracted text is the stripped text between the two brackets. It is a window of that text, contains no `<`, and has no whitespace at either end. |
| TradingEconomics.MarkerValue | main.py:39-42 | The text handed to `float` has no whitespace at either end. When a `<` follows `start_val`, it is the stripped text between `start_val` and that `<`. With no `<`, it is the stripped text from `start_val` up to but not including the page's last character, and it is empty when `start_val` is at the end. |
| TradingEconomics.ExampleValue | main.py:31-42 | On the layout `<div id="market_last" ... >3.86</div>` the extracted text is `3.86`. |
| TradingEconomics.Stage | main.py:21-48 | The scrape stage yields nothing when the request raised, the status is not 200 or the marker is absent. Otherwise it yields `float` of the extracted text. |
| BankOfCanada.ObservationValue | main.py:58 | `entry["V122544"]["v"]` yields a value exactly when both keys exist and the series member is an object. A missing key is a failure. |
| BankOfCanada.LastObservation | main.py:56-57 | An entry is selected exactly when `observations` is present and non-empty. The entry is the list's last element. |
| BankOfCanada.Stage | main.py:51-62 | The API stage yields nothing on a failed request or decode, an absent or empty list, or a missing key. Otherwise it yields `float` of the last observation's value. |
| BankOfCanada.OnlyLastObservationMatters | main.py:56-58 | Whatever precedes the last observation, the stage yields what that observation alone yields. |
| BankOfCanada.LastWithoutValueFails | main.py:57-58 | A last observation without the series value makes the stage fail, whatever earlier observations hold. |
| RateResolver.FirstSuccess | main.py:19-66 | The index of the first outcome holding a value. It is -1 exactly when every outcome is empty. |
| RateResolver.Waterfall | main.py:19-66 | The general waterfall returns the fallback when every source failed. Otherwise it returns the value of the first source that succeeded. |
| RateResolver.Resolve | main.py:45-66 | A scraped value is returned as the Trading Economics rate. Failing that, an API value is returned as the Bank of Canada rate. The safety net is used exactly when both are missing, and its rate is 3.86. |
| RateResolver.GetRate | main.py:19-66 | `get_rate` falls back to the safety net exactly when both the scrape stage and the API stage yield nothing. |
| RateResolver.GetRateIsWaterfall | main.py:19-66 | `get_rate`'s rate equals the general waterfall over [scrape stage, API stage] with fallback 3.86. |
| RateResolver.ScrapeWinsOverApi | main.py:44-45 | When the scrape succeeds, its value is returned and the API response has no influence on the result. |
| RateResolver.NonOkStatusFallsThrough | main.py:29 | A non-200 page gives the same result as a failed request, namely the API value or else 3.86. |
| RateResolver.MissingMarkerFallsThrough | main.py:33 | A page without the marker gives the same result as a failed request, even with status 200. |
| RateResolver.FallbackExactly | main.py:64-66 | The rate equals 3.86 exactly when both stages failed, or when the first successful stage happened to yield 3.86. |

## Left out

- `requests.get`, the request headers and timeouts, and `response.json()` are network and library calls. Their outcomes are inputs of the stages.
- `float` is a foreign parser. It is the parameter `parse`. No property of Python's float grammar is assumed.
- NaN and the infinities: Python's `float` accepts texts such as `nan`, `inf` and `-infinity`, and get_rate would return the result as the rate (`main.py:43-45`, `main.py:58-60`). A `real` cannot hold them. For such a text, `parse` has two choices. It can answer `None`, and then the model moves on to the next stage where the program would have returned. Or it can answer some stand-in `real`, which the model returns unchanged. Either way, the model does not represent the program's actual NaN or infinite rate.
- The `print` calls are console output. The model assumes `print` never raises. If one did, for example a `UnicodeEncodeError` for the emoji on a non-UTF-8 stdout or a `BrokenPipeError`, the outcome would change in two ways. A raise at `main.py:44` or `main.py:59` would make a stage that had already parsed its value fall through to the next stage. A raise at `main.py:48`, `main.py:62` or `main.py:65` would escape `get_rate` altogether.
- `calculate_project_costs` (`main.py:68-90`) is float exponentiation and `round`, plus a clock reading (`datetime.now`). A real-valued version would not reflect the program's float semantics.
- `update_csv` (`main.py:92-101`) is file I/O through `csv.DictWriter`.
- The `PROJECTS` list, `MUNICIPAL_SPREAD` and `CSV_FILE` (`main.py:7-17`) are used only by the two functions above.
- BankOfCanada.Stage: the decoded body is modelled as an object whose `observations` member, when present, is a list of objects with string or string-valued-object members. JSON of other shapes (a top-level list, a non-list `observations`, a numeric `v`) raises or behaves differently in Python, and is not modelled. Each raise would only make the stage yield nothing.
- TradingEconomics.Stage: `response.text` is taken as already decoded. Character decoding of the body is not modelled.
