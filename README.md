# LLM knowledge extractor — a Dafny model of its core

The service accepts a text over HTTP. It then:

- extracts up to three keywords with a part-of-speech tagger;
- asks a language model for a summary, a title, topics, a sentiment and a confidence;
- stores one row per analysis;
- serves a search over the stored rows.

This project models the three pieces of its own logic and proves what they promise.

- **Keyword extraction** (`Keywords`, app/services/nlp_service.py).
  - Blank text gives no keywords.
  - Otherwise the lower-cased text is tagged.
  - Only the lemmas of long, alphabetic nouns that are not stop words or punctuation are kept and counted.
  - The `top_n` most frequent are returned.
  - Ties go to the lemma seen first: `Counter.most_common` is modelled as a stable sort of the counter's keys, in insertion order.
- **Metadata extraction** (`Llm`, app/services/llm_service.py).
  - The service starts unconfigured, and `configure_dspy` installs the analyzer. This is a field that a method sets.
  - `analyze_text` runs its checks in a fixed order: blank text first, then the configuration check.
  - Then it classifies whatever the analyzer raises. A message containing `API`, or `rate` in any case, becomes a `RuntimeError("LLM API error: …")`. Any other message is re-raised unchanged.
  - `TextAnalyzer.forward` parses the model's reply as JSON and validates it against `ExtractedMetadata`. Validation checks only the five field types: no topic count, no sentiment vocabulary, no confidence range.
- **The HTTP endpoints** (`Api`, app/main.py).
  - The `analyses` table is a class whose `records` field `analyze` appends to.
  - `analyze` adds exactly one row, under the next id, and only after both extractions have succeeded.
  - `analyze` maps `ValueError` to 400 and `RuntimeError` to 503 "Service temporarily unavailable: …". Anything else is 503 "Internal error: …".
  - `search` is a function of the table. It filters by a case-insensitive substring of the JSON text of `topics` or `keywords`, orders newest first, and counts.

The docstring of `analyze` (app/main.py:76) says that an invalid model response gives 503. The code gives 400 instead:

- the parse failure is raised as a `ValueError`;
- pydantic's validation error is a `ValueError` too;
- the first `except` clause maps both to 400.

The model follows the code: see `Api.UnparsableReplyStatus` and `Api.InvalidFieldsStatus`. Two cases still give 503: a parse or validation message that contains "API", or "rate" in any case, is wrapped as a service failure; and a reply that parses to something other than an object raises a `TypeError` (`Api.NonObjectReplyStatus`).

The collaborators the code calls into are parameters of the model:

- **The tagger** is a function from text to tokens (`Keywords.Tagger`).
- **The language-model call** is its outcome (`Llm.LmReply`): a reply string, or the exception it raised.
- **The library texts** are a record of functions (`Llm.Collaborators`):
  - `json.loads` and its error text;
  - pydantic's error text;
  - the `TypeError` text for `**` applied to a value that is not a mapping.
- **The timestamp** of a new row is an integer argument of `Analyze`.

Files:

- results.dfy: `Option`, `Result`.
- text.dfy: Python `strip`-emptiness, `lower` and substring `in`.
- list_codec.dfy: `json.dumps` / `json.loads` of a list of strings.
- keywords.dfy, llm.dfy, api.dfy: the three modules above.

## Model

| member | source | states |
|---|---|---|
| `Keywords.Nouns` | app/services/nlp_service.py:50-57 | the list comprehension; specified by `Keywords.NounsFromKeywordTokens` |
| `Keywords.Tally` | app/services/nlp_service.py:64 | `Counter(nouns)`; specified by `Keywords.TallyContents` and `Keywords.TallyOrder` |
| `Keywords.MostCommon` | app/services/nlp_service.py:66-67 | `most_common(n)`, keys only: never more than n items, none for n <= 0; specified fully by `Keywords.MostCommonCorrect` |
| `Keywords.NounsFromKeywordTokens` | app/services/nlp_service.py:50-57 | a lemma is collected exactly when some token carrying it passes all five conditions (noun or proper noun, not a stop word, not punctuation, text longer than 2, alphabetic) |
| `Keywords.TallyContents` | app/services/nlp_service.py:64 | `Counter(nouns)` has each distinct noun once as a key, no other key, and counts every key by its number of occurrences |
| `Keywords.TallyOrder` | app/services/nlp_service.py:64 | the counter's keys are in order of first occurrence |
| `Keywords.SortedKeys` | app/services/nlp_service.py:64-67 | sorting the keys by count gives every distinct noun once, by descending count, ties in order of first occurrence |
| `Keywords.MostCommonCorrect` | app/services/nlp_service.py:66-67 | `most_common(n)` returns min(n, distinct count) counted lemmas, none for n <= 0; they are ranked, and every lemma left out is outranked by every lemma returned |
| `Keywords.Candidates` | app/services/nlp_service.py:46-57 | the lemmas counted for a text: the tagger run on the lower-cased text, filtered; specified by `Keywords.ExtractKeywordsSound` and `Keywords.ExtractKeywordsCaseInsensitive` |
| `Keywords.ExtractKeywords` | app/services/nlp_service.py:41-43 | empty or whitespace-only text gives `[]`; never more than `top_n` keywords |
| `Keywords.ExtractKeywordsLength` | app/services/nlp_service.py:59-67 | no padding: exactly min(top_n, number of distinct collected lemmas) keywords |
| `Keywords.ExtractKeywordsSound` | app/services/nlp_service.py:46-57 | every keyword is the lemma of a token of the lower-cased text that passed all five conditions |
| `Keywords.ExtractKeywordsNoNouns` | app/services/nlp_service.py:59-61 | when no token passes the filter the result is `[]` |
| `Keywords.ExtractKeywordsDistinct` | app/services/nlp_service.py:64-67 | keywords are pairwise distinct |
| `Keywords.ExtractKeywordsOrdered` | app/services/nlp_service.py:64-67 | of two keywords, the earlier one occurs more often among the collected lemmas, or as often and first occurs earlier |
| `Keywords.ExtractKeywordsMaximal` | app/services/nlp_service.py:66-67 | a collected lemma left out occurs less often than each keyword, or as often and first occurs later |
| `Keywords.ExtractKeywordsCaseInsensitive` | app/services/nlp_service.py:46 | lower-casing the input first does not change the keywords |
| `Text.IsBlank` | app/services/nlp_service.py:42 | `not text or not text.strip()`: every character is Python whitespace; `Text.LowerKeepsBlank` relates it to lower-casing |
| `Text.Lower` | app/services/nlp_service.py:46 | `lower()` on ASCII letters, keeping the length; idempotent (`Text.LowerIdempotent`), and the identity exactly on strings without capitals (`Text.LowerUnchanged`) |
| `Text.Contains` | app/main.py:168-171 | the substring test; specified by `Text.ContainsAt` |
| `Text.LowerKeepsBlank` | app/services/nlp_service.py:42-46 | lower-casing keeps whitespace, so the blank test gives the same answer before and after it |
| `Text.ContainsAt` | app/main.py:168-171 | the substring test holds exactly when some window of the haystack equals the needle |
| `ListCodec.EncodeList` | app/main.py:101-103 | `json.dumps` of a list of strings; `ListCodec.RoundTrip` is its partner |
| `ListCodec.DecodeList` | app/main.py:115-117 | `json.loads` of the text `EncodeList` writes; `ListCodec.RoundTrip` shows it inverts `EncodeList` |
| `ListCodec.RoundTrip` | app/main.py:101-117 | reading back the JSON text stored for a list of strings gives that list |
| `ListCodec.EncodePair` | app/main.py:101 | two plain items are stored as `["a", "b"]`, verbatim between their quotes |
| `Llm.Validate` | app/services/llm_service.py:83 | `ExtractedMetadata(**fields)`; specified in both directions by `Llm.ValidateIgnoresExtra` (a mapping holding the five fields of m, and any other keys, validates to m) and `Llm.ValidatedFields` |
| `Llm.ValidateFields` | app/services/llm_service.py:8-18 | every metadata value, dumped as its five fields, validates back to itself |
| `Llm.ValidatedFields` | app/services/llm_service.py:83 | a successful validation returns exactly the five fields of the mapping; what other keys hold plays no part (with `Llm.ValidateIgnoresExtra`) |
| `Llm.ValidateIgnoresExtra` | app/services/llm_service.py:83 | keys beyond the five are ignored: a mapping that holds the five fields of a metadata value validates to it, whatever other keys it has |
| `Llm.ValidationChecksOnlyTypes` | app/services/llm_service.py:14-18 | five topics, the sentiment "furious" and a confidence of 7.5 all validate |
| `Llm.Forward` | app/services/llm_service.py:70-83 | blank text is a `ValueError("Text cannot be empty")`; otherwise an exception of the call passes through unchanged, a reply that does not parse is a `ValueError` "Failed to parse LLM response as JSON: …", one that parses to something other than an object is the `TypeError` of `**`, an object that validates to m gives m, and one that does not is a `ValueError` with pydantic's text; conversely a success comes only from a reply whose object validates to it |
| `Llm.IsServiceMessage` | app/services/llm_service.py:147 | `"API" in str(e) or "rate" in str(e).lower()`; specified by the ensures of `Llm.Classify` and by `Llm.WrappedIsServiceMessage` |
| `Llm.Classify` | app/services/llm_service.py:145-149 | a failure becomes `RuntimeError("LLM API error: " + message)` exactly when the message contains "API" or, lower-cased, "rate"; any other failure is re-raised unchanged; a success passes through |
| `Llm.WrappedIsServiceMessage` | app/services/llm_service.py:147-148 | the wrapped message itself contains "API" |
| `Llm.LlmService.constructor` | app/services/llm_service.py:86 | the service starts with no analyzer |
| `Llm.LlmService.Configure` | app/services/llm_service.py:100-112 | the analyzer is set, with model `openai/<model>`, the key, 2000 tokens and temperature 0.7 |
| `Llm.LlmService.AnalyzeText` | app/services/llm_service.py:134-149 | the blank check comes first, then the configuration check; only after both does the analyzer's outcome, classified, decide |
| `Api.ToHttpError` | app/main.py:122-136 | 400 exactly for a `ValueError`, with its message; 503 otherwise, with "Service temporarily unavailable: " for a `RuntimeError` and "Internal error: " for anything else |
| `Api.BlankTextStatus` | app/services/llm_service.py:134-135 | non-empty whitespace-only text ends as 400 "Text cannot be empty", whether or not the service is configured |
| `Api.UnconfiguredStatus` | app/services/llm_service.py:137-140 | text that is not blank, sent to an unconfigured service, ends as 400 with the configuration message |
| `Api.UnparsableReplyStatus` | app/services/llm_service.py:77-80 | a reply that is not valid JSON ends as 400 "Failed to parse LLM response as JSON: …" unless that message looks like a service failure |
| `Api.InvalidFieldsStatus` | app/services/llm_service.py:83 | an object whose fields fail validation ends as 400 with pydantic's message unless it looks like a service failure |
| `Api.NonObjectReplyStatus` | app/main.py:131-136 | a reply that parses to something other than an object always ends as 503 |
| `Api.ServiceFailureStatus` | app/services/llm_service.py:145-148 | a service failure reported by the model call ends as 503 "Service temporarily unavailable: LLM API error: …" |
| `Api.ValidReplySucceeds` | app/services/llm_service.py:74-83 | a configured service, text that is not blank and a reply whose object validates to m give m, so `analyze` stores a row |
| `Api.OtherFailureStatus` | app/services/llm_service.py:149 | an exception of the model call that does not look like a service failure is re-raised unchanged: 400 for a `ValueError`, 503 "Internal error: …" for one that is neither a `ValueError` nor a `RuntimeError` |
| `Api.LikeContains` | app/main.py:168-171 | `column LIKE '%term%'`, both sides ASCII-folded; specified by `Api.SearchMembership` and `Api.TopicSelects` |
| `Api.Selects` | app/main.py:166-171 | the query's filter; specified over the whole table by `Api.SearchMembership` and `Api.SearchSpansSeparator` |
| `Api.Selected` | app/main.py:166-175 | filter then order; specified by `Api.SelectedMembers`, `Api.SelectedOnce` and `Api.SelectedAll` |
| `Api.ToResponse` | app/main.py:111-120 | the response built from a row, its lists read back; `ListCodec.RoundTrip` makes them the lists `analyze` stored |
| `Api.Matching` | app/main.py:166-172 | the filter keeps each selected row as often as it is stored and drops every other row |
| `Api.NewestFirst` | app/main.py:175 | ordering rearranges the rows, newest first |
| `Api.SelectedMembers` | app/main.py:166-175 | the query returns exactly the stored rows the filter selects |
| `Api.SelectedOnce` | app/main.py:175 | the query returns no row twice |
| `Api.SelectedAll` | app/main.py:166 | with no topic or an empty one, every row is returned |
| `Api.Responses` | app/main.py:178-190 | one response per row, in the same order, each the row with its lists read back |
| `Api.SearchMembership` | app/main.py:166-171 | a stored row's response is among the results exactly when its JSON topics or JSON keywords contain the lower-cased term, ignoring ASCII case |
| `Api.SearchFromRecords` | app/main.py:178-190 | every result is the response of a stored row |
| `Api.SearchSpansSeparator` | app/main.py:167-171 | the match runs on the JSON text: `a", "b` selects the row with topics `[a, b]`, although it is inside neither topic |
| `Api.Store.constructor` | app/database.py:14-24 | the table starts empty |
| `Api.Store.Analyze` | app/main.py:89-136 | an empty text is rejected with 422. A failed extraction maps its exception to a status and leaves the table unchanged. Otherwise exactly one row is appended, with id = row count + 1, the text, the metadata, the JSON of topics and of the three keywords, and the timestamp. The response carries the same lists. The table invariant (ids are positions, lists read back, at most 3 keywords) is kept |
| `Api.Store.Search` | app/main.py:163-192 | `count` is the number of results; results are newest first with distinct ids; a stored row is returned exactly when it is selected; nothing else is returned; no topic or an empty one returns every row; the table is only read |

## Left out

- The tagger and lemmatizer are a total function parameter. Loading the language model and any exception the tagger could raise are not modelled.
- The chain-of-thought call, `dspy.LM`, `dspy.configure` and the OpenAI settings are left out. The call is represented by its outcome, `LmReply`. `Configure` records the settings it would pass. The default "gpt-4.1-mini" of its `model` argument is not modelled: callers pass the model explicitly.
- The text of `json.loads`'s errors, of pydantic's validation error, and of the `TypeError` for `**` on a non-mapping comes from library code. It is a parameter (`Collaborators`).
- Llm.Validate accepts only JSON strings for the string fields, and only JSON numbers for `confidence`. Pydantic's lax mode would also turn numeric strings and booleans into a float; that coercion is not modelled.
- Text.Lower folds ASCII letters only, where Python's `lower()` folds every cased letter. It stands in for `lower()` in three places:
  - in the service-failure test of `Llm.Classify`, where it is exact for "rate", since no other character lowers to r, a, t or e;
  - in `Keywords.Candidates`, where the tagger sees the text lower-cased: non-ASCII capitals such as "É" reach the tagger unchanged here, lower-cased in the source;
  - in `Api.Selects`, for the search term. SQLite's LIKE folds only ASCII, as the model does. But `json.dumps` writes non-ASCII characters as `\uXXXX` escapes, so in the source a term whose `lower()` still holds a non-ASCII character never matches a stored row, while here it can. Conversely, a term that Python lowers to ASCII matches differently: the Kelvin sign U+212A lowers to `k`, so in the source it selects every row whose JSON holds a `k` or a `K`, while here it selects only rows holding U+212A itself.
- Api.Store.Search treats the term as a plain substring. In SQL LIKE, `%` and `_` inside the term are wildcards; that is not modelled.
- ListCodec.EncodeList escapes only `"` and `\`. `json.dumps` also escapes control and non-ASCII characters; the round trip is stated for this encoder.
- `confidence` is a real. Its storage as `str(float)` and reading back with `float()` are not modelled.
- `created_at` is an integer the caller supplies. No order among rows with equal timestamps is claimed.
- Database session failures (`add`, `commit`, `refresh` raising) are not modelled. Neither is the `String(255)` / `String(20)` width of `title` and `sentiment`.
- The FastAPI app, routing, dependency injection, startup hook and health endpoint are framework plumbing, outside the model. So are app/config.py, evals/eval_llm_quality.py and the tests.
- The request schema's `min_length=1` (app/models.py:15) is modelled as the 422 outcome of `Analyze`. Its message text is pydantic's.
