# Image-intent classifier service: validation, JSON extraction and retry

The service takes an uploaded image and asks a remote multimodal model why the
user saved it. The model picks one of four categories: 쇼핑 (shopping),
문서 (document), 음악 (music) or 기타 (other). It is supposed to answer with a
JSON record `{"className": "<label>"}`. Everything the service does with that
answer is in `main.py`. This project models the three sequential pieces of it:

- **the response validator** (`validate_response`), in module `Validator`. It
  makes three checks, in a fixed order: the value is an object, it has the key
  "className", and that key's value is one of the four labels. Each check has
  its own `ValueError`.
- **the fenced-JSON extractor** (`extract_json_from_text`), in module
  `Extractor`. It runs Python's `re.search` with the DOTALL pattern
  ```` ```json\s*(\{.*?\}|\[.*?\])\s*``` ````. If a block matches, only
  group 1 is decoded; otherwise the whole reply is decoded. Any decoder
  failure becomes a status-500 `HTTPException` whose detail quotes the reply.
  The pattern is stated twice:
  - as a relation, `Matches`: what any match looks like;
  - as the scan that computes it: `SkipSpace`, `FindCloser`, `MatchAt`,
    `Search`.

  Lemmas prove that the scan returns the match Python's backtracking engine
  reports. That match starts at the leftmost position. Its group start is
  forced, because the greedy `\s*` must stop at the opening bracket. Its group
  is the shortest one, because `.*?` is lazy. The JSON decoder (`json.loads`)
  is a parameter `decode: string -> DecodeResult`.
- **the bounded retry loop** (`analyze_description_with_retry`), in module
  `Retry`. It is a method with a `while` loop and a retry counter. The remote
  classifier is an oracle `classify: nat -> Outcome`: `classify(i)` is what
  the (i+1)-th call returns, either a decoded record or an exception's text.
  The method also returns `calls`, the number of classifier calls it made.

Module `Json` holds the decoded-value datatype. Module `Common` holds
`Option`, `Result` and the framework's `HttpException`.

Three behaviours of `main.py` worth knowing:
- When the retries run out, the error detail ends in "(재시도 횟수 초과)"
  ("retry count exceeded") and carries no attempt count.
- A bound of zero or less makes no classifier call, and the function returns
  `None` instead of raising; this is `FellThrough` in the model.
- A list or object under "className" raises `TypeError`, not a validation
  `ValueError`; see Findings.

## Model

| member | source | states |
|---|---|---|
| `Validator.LabelOf` | main.py:30 | A "className" value names a label exactly when it is one of the strings in the four-label set, and then it is that label's text |
| `Validator.Validate` | main.py:28-36 | Checks in source order. The value is rejected as not-an-object iff it is not a dict, and as missing-key iff it is a dict without "className". It is rejected as an invalid class name iff the key is present and its value is not a label; that error carries the offending value. It is accepted iff it is a dict whose "className" is the text of one of the four labels |
| `Validator.RecordIsAccepted` | main.py:30-36 | The record `{"className": <label text>}` passes validation for each of the four labels, and its value names that label back |
| `Validator.ErrorMessage` | main.py:32-36 | The three `ValueError` texts. Only the invalid-label text starts with "유효하지 않은 className: "; right after that prefix it shows the offending value, and it ends with ". 허용 값: " and the label set. How Python renders that value and that set is the `Formatter` parameter (`show`, `allowed`) |
| `Validator.ErrorMessagesDistinct` | main.py:32-36 | The three kinds of validation failure never share the text of their `ValueError` |
| `Validator.ValidateAsWritten` | main.py:28-36 | The code as written raises `TypeError` exactly when "className" holds a list or dict. Otherwise it agrees with `Validate`: it returns iff `Validate` accepts, and raises the same `ValueError` when it rejects |
| `Validator.ListClassNameRaisesTypeError` | main.py:35-36 | `{"className": ["쇼핑"]}` makes the code as written raise `TypeError`, while the corrected validator rejects it as an invalid class name |
| `Extractor.SkipSpace` | main.py:109 | The greedy `\s*` from index i stops at the first non-whitespace character (or the end), and every character it passes is whitespace in Python's sense |
| `Extractor.MatchAt` | main.py:109-112 | The engine's attempt at one start p: any match it reports starts at p and has a non-empty group inside the text. It is the shortest-group match at p, and it is absent only when no match starts at p (by `MatchAtSpec`) |
| `Extractor.SearchFrom` | main.py:112 | `re.search` trying starts p, p+1, ... in turn: any match it reports starts at or after p and lies inside the text. That match is the leftmost at or after p, with the shortest group, and it is absent only when no match starts at or after p (by `SearchFromSpec`) |
| `Extractor.Search` | main.py:112 | `re.search(pattern, text, re.DOTALL)`: any match it reports lies inside the text. It is the leftmost-then-shortest match, and it is absent only when the pattern occurs nowhere (by `SearchSpec`) |
| `Extractor.SkipSpaceUnique` | main.py:109 | Any whitespace run that ends at a non-whitespace character, or at the end, is exactly the run the greedy `\s*` consumes |
| `Extractor.FindCloser` | main.py:109 | The lazy `.*?` ends the group at the first closer followed by optional whitespace and "```". No earlier index can end it, and when none exists there is no such index at all |
| `Extractor.MatchesByScan` | main.py:109 | A match at p with group text[s..e] exists iff: "```json" is at p; s is where the whitespace after it ends; text[s] is `{` or `[`; and e-1 holds the matching closer followed by whitespace and "```" |
| `Extractor.MatchAtSpec` | main.py:109-112 | Starting at p, the engine reports the match with the shortest group when some match starts at p, and nothing when none does |
| `Extractor.SearchFromSpec` | main.py:112 | Scanning from p finds a match whose start is the leftmost one at or after p, with the shortest group at that start. When it finds nothing, no match starts at or after p |
| `Extractor.SearchSpec` | main.py:112-113 | `re.search` returns the chosen match: the leftmost, then the shortest. When it returns nothing, the pattern occurs nowhere in the text |
| `Extractor.ChosenUnique` | main.py:112 | At most one match meets the leftmost-then-shortest rule |
| `Extractor.Settle` | main.py:115-128 | A decoded value is returned unchanged, and only a decoded value is returned. A decode error, or any other error, becomes status 500 with a detail ending in the original reply |
| `Extractor.ExtractJson` | main.py:104-128 | Every failure of the extractor is a status-500 error whose detail ends with the full reply text |
| `Extractor.ExtractUsesChosenBlock` | main.py:109-115 | When the pattern matches, the result is the decoding of the chosen group alone. A failure to decode that group is an error even when the whole reply would decode |
| `Extractor.ExtractFallsBackToWholeText` | main.py:116-118 | When the pattern matches nowhere, the result is the decoding of the whole reply |
| `Extractor.FencedObjectIsExtracted` | main.py:109-115 | For a reply of the form "```json", whitespace, `{body}`, whitespace, "```", anything (with no `}` inside body), the result is the decoding of `{body}` |
| `Extractor.BareReplyIsDecodedWhole` | main.py:116-118 | A reply that contains no "```json" marker is decoded whole |
| `Retry.AttemptOf` | main.py:45-54 | An attempt succeeds iff the classifier returned a record and that record passes validation; a successful attempt yields that very record |
| `Retry.ExhaustedDetail` | main.py:56-59 | The exhaustion detail starts with "분석 실패: " and ends with " (재시도 횟수 초과)". The last failure's text is exactly what lies between them, so it can be read back out of the detail |
| `Retry.AnalyzeWithRetry` | main.py:39-61 | With a bound of zero or less: no call is made and it falls through (`None`). Otherwise it makes 1 to bound calls, and every attempt before the last failed. On success it returns the classifier's record unchanged, and that record passes validation. It raises iff every attempt up to the bound failed; it then made exactly bound calls, and the status-500 detail is "분석 실패: " + the last failure's text + " (재시도 횟수 초과)". If the first k attempts fail and attempt k+1 succeeds (k below the bound), it returns that record after exactly k+1 calls |

## Left out

- The FastAPI application and its routes (main.py:11, 130-144) are HTTP plumbing. The upload route turns every failure, including the status-500 retry-exhaustion error, into a status-400 error.
- `analyze_description` (main.py:64-96) is replaced by the `classify` oracle. It covers the OpenAI chat-completion request, reading the upload, `strip()` and the re-wrapping of every exception as status 500. These are a network service and async I/O. The oracle's failure text stands for `str()` of that exception, which the framework formats.
- `encode_image` (main.py:99-101) is a one-line call of Python's Base64 encoder (RFC 4648, section 4). It holds no logic of its own.
- `time.sleep(delay)` and `async`/`await` (main.py:39, 45, 61) do not change what is called or returned, so the `delay` parameter is not modelled.
- The internals of `json.loads` are a foreign library. The decoder is the parameter `decode`, which returns a value, a `JSONDecodeError` message, or another exception's message. JSON numbers are one `real`, without Python's split into int and float. Objects are maps, without key order.
- The prompt text (main.py:14-25) is static data.
- Validator.ErrorMessage: Python's `str()` of the offending value and of the label set inside the invalid-label message is the `Formatter` parameter, because a set's print order depends on the interpreter's string hashing.
- Retry.AnalyzeWithRetry: the loop uses the corrected validator `Validate`, so a `TypeError` from the validator as written (see Findings) escaping the loop is not modelled in the method.
- `validate_response` leaves its argument untouched. In a model over immutable values this holds by construction, so no contract states it.

## Findings

| source | as written | input that shows it | evidently intended | confidence | as-written member | corrected member |
|---|---|---|---|---|---|---|
| main.py:35 | `response["className"] not in valid_classes` tests membership in a Python set, which hashes the value; for a list or dict this raises `TypeError`. `TypeError` is not caught by `except (ValueError, HTTPException)` at main.py:53, so the loop stops without retrying | `{"className": ["쇼핑"]}` | a `ValueError` "유효하지 않은 className", retried like any other off-taxonomy answer | not executed; high (Python semantics of `in` on a set) | `Validator.ListClassNameRaisesTypeError` (over `Validator.ValidateAsWritten`) | `Validator.Validate` (used by `Retry.AnalyzeWithRetry`) |
