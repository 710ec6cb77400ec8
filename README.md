# Text Processing Backend — a Dafny model

The service is a small FastAPI application in `main.py`. `POST /process` takes
a text and asks a chat-completion provider three questions about it: a
summary, a comma-separated keyword list and a sentiment label. It
post-processes each reply, answers with a `ProcessedText` record and appends
that record to the in-memory `history_storage`. `GET /history` returns the
stored records.

This project models the deterministic part of that service and proves
properties about it:

- `text.dfy` (module `Text`): the three Python string operations the service
  applies to replies.
  - `str.strip()` is modelled as `Strip`.
  - `str.split(",")` is modelled as `Split`, with its inverse `Join`.
  - `str.capitalize()` is modelled as `Capitalize`.
  - Whitespace is the set of ASCII characters for which `str.isspace()`
    holds. Letters are the ASCII letters.
- `parsers.dfy` (module `Parsers`): the post-processing done by the three
  helpers.
  - `generate_summary` is `Summarize`.
  - `extract_keywords` is `ParseKeywords`, built on the comprehension
    `KeepStripped`.
  - `analyze_sentiment` is `NormalizeSentiment`.
  - Each takes the provider's raw reply as its input.
- `service.dfy` (module `Service`): the request handling and the history.
  - The pydantic records `TextRequest` and `ProcessedText` (main.py:30-47)
    are the datatypes of the same names. `ProcessedText.originalText` is the
    field `original_text`.
  - `HandleRequest` is the answer of `process_text`.
  - The class `History` holds `history_storage` as its `records` field.
  - `History.Process` is the imperative handler that appends to the history.
  - `History.GetHistory` is `get_history`.
  - A ghost log `calls` records every call handled. The invariant `Valid()`
    says the records are exactly the results of the successful calls
    (`Successes`).

The provider is not modelled. Each call to `process_text` receives a
`Replies` value as input: one `Option<string>` per step, where `None` stands
for a provider call that raised. The model always consults the steps in the
code's order (summary, keywords, sentiment), and the first failure aborts the
request.

Sentiment normalisation is `str.capitalize()` applied to the stripped reply.
It raises the first character and lowers every later one, so `"NOT BAD"`
becomes `"Not bad"` (see `Parsers.NormalizeSentimentPhrase`). `Capitalize`
models that rule.

## Model

| member | source | states |
|---|---|---|
| Text.Strip | main.py:73 | The result has no surrounding whitespace. It is the slice of the input that starts after the leading whitespace run, and only whitespace follows it. |
| Text.StripUnique | main.py:73 | Any trimmed slice of `s` with only whitespace before and after it equals `Strip(s)`, so the contract of `Strip` determines its result. |
| Text.StripTrimmed | main.py:73 | A string without surrounding whitespace is returned unchanged by strip. |
| Text.StripIdempotent | main.py:73 | Stripping twice is the same as stripping once. |
| Text.StripEmptyIff | main.py:152 | `text.strip()` is empty exactly when every character of the text is whitespace, which is the blank-text test of `process_text`. |
| Text.StripSpacesBefore | main.py:100-103 | Adding whitespace before a string does not change its strip. |
| Text.StripSpacesAfter | main.py:100-103 | Adding whitespace after a string does not change its strip. |
| Text.StripPadded | main.py:100-103 | Adding whitespace around a string does not change its strip. |
| Text.Split | main.py:103 | `split(",")` returns at least one piece, no piece contains the separator, and joining the pieces with the separator gives back the input. |
| Text.SplitPadded | main.py:100-103 | Splitting a string padded with separator-free text gives the same pieces, with the padding glued onto the first and last piece only. |
| Text.SplitJoin | main.py:103 | Splitting the join of separator-free pieces gives back exactly those pieces (split is the inverse of join). |
| Text.CapitalizeTrimmed | main.py:129-130 | Capitalizing a string without surrounding whitespace gives one, and the result equals the input up to case. |
| Text.Capitalize | main.py:130 | `capitalize()` keeps the length and the letters up to case. The first character is not lower case and no later character is upper case. |
| Text.CapitalizeUnique | main.py:130 | Those four properties determine the result: any string having them is `Capitalize(s)`. |
| Text.CapitalizeAppend | main.py:130 | Capitalizing `a + b` with `a` non-empty lowers all of `b`: only the very first character is raised. |
| Text.CapitalizeSameIff | main.py:130 | Two strings capitalize alike exactly when they are equal up to case. |
| Text.CapitalizeIdempotent | main.py:130 | Capitalizing a capitalized string changes nothing. |
| Parsers.Summarize | main.py:73 | The summary is the raw reply without surrounding whitespace: a trimmed slice of the reply with only whitespace around it, empty exactly when the reply is blank. |
| Parsers.SummarizeTrimmed | main.py:73 | A reply with no surrounding whitespace is the summary unchanged. |
| Parsers.KeepStripped | main.py:103 | The comprehension yields at most one keyword per segment, and every keyword is non-empty and trimmed. |
| Parsers.KeepStrippedAppend | main.py:103 | The comprehension distributes over concatenation of segment lists, so the segments' order is kept and duplicates are kept. |
| Parsers.KeepStrippedMembers | main.py:103 | A string is among the keywords exactly when it is non-empty and is the strip of some segment. |
| Parsers.KeepStrippedClean | main.py:103 | Segments that are already non-empty and trimmed come through unchanged. |
| Parsers.ParseKeywords | main.py:100-104 | Every keyword is non-empty, has no surrounding whitespace and contains no comma. |
| Parsers.ParseKeywordsUnstripped | main.py:100-103 | Stripping the whole reply first changes nothing: the keywords are the stripped, non-empty comma-separated segments of the raw reply. |
| Parsers.ParseKeywordsJoin | main.py:100-103 | Parsing comma-joined segments gives the stripped, non-empty segments in order, duplicates kept. |
| Parsers.ParseKeywordsRoundTrip | main.py:100-103 | A list of clean keywords survives joining with commas and parsing back. |
| Parsers.NormalizeSentiment | main.py:129-131 | The label has the stripped reply's length and letters up to case. Its first character is not lower case and no later one is upper case. It is trimmed and is empty exactly when the reply is blank. |
| Parsers.NormalizeSentimentIdempotent | main.py:129-130 | Normalising a label again does not change it. |
| Parsers.NormalizeSentimentSameIff | main.py:129-130 | Two replies give the same label exactly when their stripped forms agree up to case. |
| Parsers.NormalizeSentimentLower | main.py:129-130 | `"positive"` becomes `"Positive"`. |
| Parsers.NormalizeSentimentUpper | main.py:129-130 | `"POSITIVE"` becomes `"Positive"`. |
| Parsers.NormalizeSentimentPhrase | main.py:129-130 | `"NOT BAD"` becomes `"Not bad"`: letters after the first word are lowered too. |
| Parsers.NormalizeSentimentBlank | main.py:129-130 | A blank reply gives the empty label. |
| Service.HandleRequest | main.py:152-171 | The request succeeds exactly when the text is not blank and all three provider steps answer. A blank text gives the 400 "Text cannot be empty." error whatever the replies. Otherwise the first failed step, in code order, is the error. A success carries the untrimmed request text, the three post-processed replies, and is well formed. |
| Service.Successes | main.py:169 | The history after a sequence of calls has at most one record per call, and every record is well formed. |
| Service.SuccessesSnoc | main.py:169 | One more call appends its record at the end when it succeeds and leaves the history unchanged otherwise. |
| Service.SuccessesAllSucceed | main.py:169-180 | After N calls that all succeed, the history holds exactly N records, the i-th being the result of the i-th call. |
| Service.SuccessesFromCalls | main.py:152-169 | Every record in the history is the result of some successful call, and it carries that same call's request text. |
| Service.History.constructor | main.py:25 | The history starts empty. |
| Service.History.Process | main.py:144-171 | The answer is `HandleRequest`'s. On success exactly that record is appended at the end and earlier records are unchanged. On a blank text or a failed step the records are unchanged. The invariant that the records are the successful calls' results is kept. |
| Service.History.GetHistory | main.py:173-180 | Returns the records in append order, each well formed. |

## Left out

- The provider calls (`openai.ChatCompletion.create`), the prompts and the temperatures are a network call. Each reply is an arbitrary input string, or a failure.
- Indexing into the provider's response object (`response["choices"][0]["message"]["content"]`) belongs to the provider library. A malformed response is covered by the failure case of the step.
- Whether a reply depends on the request text is not modelled: the replies are free inputs, independent of the text.
- `load_dotenv` and the start-up check of `OPENAI_API_KEY` are environment configuration.
- FastAPI routing, the root welcome endpoint, and the mapping of a provider failure to an HTTP 500 answer are left out. A provider failure is the error `ProviderError(step)`; only the blank-text error carries a status, 400.
- Pydantic validation of the request body and the `.dict()` conversion before appending are left out. A record is stored as the same value that is returned.
- Concurrent requests appending to `history_storage` are left out: calls are handled one after another.
- Service.History.GetHistory: returns a copy of the records, whereas the Python function returns the list object itself, so a caller mutating it would change the history.
- Text.Strip, Text.Capitalize: only ASCII whitespace and ASCII letters are modelled. Python also strips Unicode whitespace, changes the case of non-ASCII letters, and since 3.8 title-cases the first character of `capitalize()`.
