# DREAMSCAPE anime news endpoint — a Dafny model

The repository's news endpoint (`GET` in `src/routes/api/news/+server.ts`)
proxies the AniList GraphQL API. It posts a fixed query and checks that the
reply has an ok status. It then checks that `data.Page.media` is an array.
Each non-null entry becomes an `AnimeNews` record, with a fallback for every
field. The HTML tags are stripped from the description to form an excerpt.
The result is a JSON array, or a status-500 JSON error.

This project models the pure part of that handler as Dafny functions:

- `js.dfy` (`JsValues`): absent values, truthiness of strings and the `||`
  fallback, thrown values (an `Error` with its message, or anything else), and
  the decimal rendering of a number in a template literal.
- `anilist.dfy` (`AniList`): the upstream payload as an explicit
  optional-field record type, and the `data?.data?.Page?.media` array check.
- `tags.dfy` (`Tags`): `replace(/<[^>]*>/g, '')` as a left-to-right scan. It
  is proved equal to an independent formulation that cuts the text at each
  `>`. The lemmas show that the result has no `<` followed later by a `>`,
  that stripping is idempotent, and that text without `<` is unchanged.
- `news.dfy` (`News`): the `AnimeNews` record, the title, link, image and
  excerpt fallbacks, the `map` callback, and `filter(Boolean)`. The lemmas
  prove that the output has one record per non-null entry, in upstream order,
  and that a throwing `map` carries the throw of the first non-null entry
  whose date formatting throws.
- `endpoint.dfy` (`NewsEndpoint`): the `try` block (`Attempted`), the
  `catch` clause (`Recover`) and the whole handler (`Get`). Its result is
  `Ok(news)`, which is HTTP 200 with the array, or `Fail(500, message)`.

What the network produced is an input: the status and the parsed body, or
the value that `fetch` or `response.json()` threw. The date formatting
`new Date(updatedAt * 1000).toISOString()` is a parameter function that may
throw (`DateFormatter`).

An excerpt is not free of angle brackets. The regular expression removes
only complete tags, so an unclosed `<` survives, and so does a `>` that
closes no tag. `StripTagsKeepsUnclosedTail` proves the first for the stripped
text in general. `UnclosedBracketSurvives` and `StrayCloseSurvives` show
both in the excerpt of a short description ending in such a bracket.
What does hold is weaker: no surviving `<` is followed by a `>`
(`ExcerptTagFree`). A description that is one complete tag yields `"..."`, not the
"No description available" sentence (`ExcerptOfLoneTag`).

## Model

| member | source | states |
|---|---|---|
| `JsValues.OrElse` | src/routes/api/news/+server.ts:65-71 | `a \|\| b` on a possibly absent string: `a` when present and non-empty, else `b`; never empty when `b` is not |
| `JsValues.NumberToString` | src/routes/api/news/+server.ts:50 | `${status}` is a non-empty string of decimal digits that starts with `0` only when it is exactly `"0"` (the number 0) |
| `JsValues.ParseNumberToString` | src/routes/api/news/+server.ts:50 | reading the rendered digits back gives the original number |
| `JsValues.NumberToStringInjective` | src/routes/api/news/+server.ts:50 | different numbers render to different strings |
| `AniList.MediaEntries` | src/routes/api/news/+server.ts:56-57 | an entry list is obtained exactly when body, `data`, `Page` and `media` are all present and `media` is an array; the list is that array |
| `Tags.StripTags` | src/routes/api/news/+server.ts:75 | tag removal never lengthens the text |
| `Tags.StripTagsKeepsCharacters` | src/routes/api/news/+server.ts:75 | tag removal only deletes characters: the result is the description with some characters deleted and the rest kept in their order (so every character of the result occurs in the description) |
| `Tags.TagFreeUnchanged` | src/routes/api/news/+server.ts:75 | text in which no `<` is followed by a `>` is left unchanged |
| `Tags.NoOpenBracketUnchanged` | src/routes/api/news/+server.ts:75 | text without `<` is left unchanged |
| `Tags.StripTagsTagFree` | src/routes/api/news/+server.ts:75 | after stripping, no surviving `<` has a `>` anywhere after it |
| `Tags.StripTagsKeepsUnclosedTail` | src/routes/api/news/+server.ts:75 | when no `>` lies at or after a position, the stripped text ends with everything from that position on, so an unclosed `<` and what follows it survive |
| `Tags.StripTagsIdempotent` | src/routes/api/news/+server.ts:75 | stripping twice equals stripping once |
| `Tags.StripTagsBySegments` | src/routes/api/news/+server.ts:75 | the left-to-right scan equals the reference that cuts at each `>` and drops everything from the segment's first `<` up to and including that `>` |
| `News.TitleOf` | src/routes/api/news/+server.ts:65 | the title is the non-empty English title, else the non-empty romaji title, else "Untitled Anime"; it is never empty |
| `News.Slice` | src/routes/api/news/+server.ts:75 | `slice(0, n)` is a prefix of length min(length, n) |
| `News.Excerpt` | src/routes/api/news/+server.ts:74-76 | with a non-empty description: a prefix of the stripped text of length min(its length, 200), then "..." (at most 203 characters); otherwise "No description available" |
| `News.ExcerptTagFree` | src/routes/api/news/+server.ts:74-75 | in every excerpt, including the fixed sentence, no `<` is followed by a `>` |
| `News.ExcerptOfTagFreeText` | src/routes/api/news/+server.ts:74-75 | a short description with no tag in it is kept whole and followed by "..." |
| `News.UnclosedBracketSurvives` | src/routes/api/news/+server.ts:75 | a trailing `<` after bracket-free text shorter than 200 characters stays in the excerpt |
| `News.StrayCloseSurvives` | src/routes/api/news/+server.ts:75 | a trailing `>` after text without `<` shorter than 200 characters stays in the excerpt |
| `News.ExcerptOfLoneTag` | src/routes/api/news/+server.ts:74-75 | a description that is one complete tag gives the excerpt "..." |
| `News.ToNews` | src/routes/api/news/+server.ts:64-77 | an entry maps to a record iff its date can be formatted, else to the same throw; the record has every field populated, author "AniList", the site URL or "#", the large cover or "/placeholder-anime.jpg", and the excerpt of the description |
| `News.MapEntry` | src/routes/api/news/+server.ts:61-77 | the `map` callback: a falsy entry gives `null`; any other entry throws exactly when its date cannot be formatted (with the formatter's throw), and otherwise gives a record with every field populated |
| `News.MapEntries` | src/routes/api/news/+server.ts:61-77 | a successful `map` has one result per entry, each the callback's result on that entry |
| `News.Compact` | src/routes/api/news/+server.ts:78 | `filter(Boolean)` keeps exactly the values of the non-null entries and never grows the list |
| `News.CountPresentPositive` | src/routes/api/news/+server.ts:80 | a list with a non-null entry has a positive count of non-null entries |
| `News.CompactLength` | src/routes/api/news/+server.ts:78 | the filtered list has one value per non-null entry |
| `News.CompactPlacement` | src/routes/api/news/+server.ts:78 | the non-null entry at position i lands at position "number of non-null entries before i" |
| `News.Transform` | src/routes/api/news/+server.ts:61-78 | `map` then `filter(Boolean)` never yields more records than entries; its other promises are `TransformIsConvertPresent`, `TransformKeepsOrder` and `TransformFailure` |
| `News.TransformIsConvertPresent` | src/routes/api/news/+server.ts:61-78 | mapping then filtering equals filtering then mapping, throws included |
| `News.ConvertAllPointwise` | src/routes/api/news/+server.ts:61-77 | a successful conversion maps the k-th item onto the k-th record |
| `News.TransformKeepsOrder` | src/routes/api/news/+server.ts:61-78 | on success, one populated record per non-null entry, in upstream order |
| `News.MapEntriesFirstFailure` | src/routes/api/news/+server.ts:61-66 | a throwing `map` throws what the first failing non-null entry's date formatting threw |
| `News.TransformFailure` | src/routes/api/news/+server.ts:61-78 | the list transformation throws iff some non-null entry's date cannot be formatted, and then the first such throw |
| `NewsEndpoint.StatusMessage` | src/routes/api/news/+server.ts:50 | the message is "API responded with status: " followed by exactly the decimal rendering of the status, whose digits read back as the status |
| `NewsEndpoint.StatusMessageInjective` | src/routes/api/news/+server.ts:50 | distinct statuses give distinct messages |
| `NewsEndpoint.IsOk` | src/routes/api/news/+server.ts:49 | `response.ok`: the status is from 200 to 299 |
| `NewsEndpoint.Attempted` | src/routes/api/news/+server.ts:37-84 | the `try` block completes only with a non-empty list |
| `NewsEndpoint.Recover` | src/routes/api/news/+server.ts:85-94 | every throw becomes status 500; an `Error` keeps its message; any other value gets the fixed fallback message |
| `NewsEndpoint.Get` | src/routes/api/news/+server.ts:36-96 | every failure is status 500, and a success is never empty |
| `NewsEndpoint.UpstreamStatusFails` | src/routes/api/news/+server.ts:49-51 | a non-ok status fails with the status-bearing message |
| `NewsEndpoint.InvalidStructureFails` | src/routes/api/news/+server.ts:56-58 | a missing or non-array `media` fails with "Invalid response structure from AniList API" |
| `NewsEndpoint.EmptyListFails` | src/routes/api/news/+server.ts:80-82 | a media list with no non-null entry fails with "No anime news available" |
| `NewsEndpoint.SuccessContents` | src/routes/api/news/+server.ts:61-84 | a success came from an ok status and an array, and holds one populated record per non-null entry, in order |
| `NewsEndpoint.SuccessWhenAllMapped` | src/routes/api/news/+server.ts:80-84 | with an ok status, an array with a non-null entry and all dates formattable, the reply is the mapped list unchanged |
| `NewsEndpoint.GenericFailureSource` | src/routes/api/news/+server.ts:85-94 | the fallback message arises only from a non-`Error` throw (or an `Error` with that very text) by the network call, the body read or the date formatting |
| `NewsEndpoint.Status503` | src/routes/api/news/+server.ts:49-51 | upstream status 503 replies 500 with "API responded with status: 503" |
| `NewsEndpoint.MissingMediaExample` | src/routes/api/news/+server.ts:56-58 | the body `{"data":{"Page":{}}}` replies 500 with the invalid-structure message |
| `NewsEndpoint.EmptyMediaExample` | src/routes/api/news/+server.ts:80-82 | the body `{"data":{"Page":{"media":[]}}}` replies 500 with "No anime news available" |

## Left out

- The network call: `fetch`, its URL, method, headers and body, `response.ok`, `response.status` and `response.json()`. What they produce, or throw, is the input `Attempt<Response>`. `response.ok` is modelled as a status from 200 to 299, as the Fetch standard defines it.
- The GraphQL query text. It is a constant with no logic, and the `id` it requests is never read.
- `new Date(updatedAt * 1000).toISOString()`. It is the parameter `DateFormatter`, applied to the raw `updatedAt` field. No ISO-8601 format is proved, so "`updatedAt = 0` gives `1970-01-01T00:00:00.000Z`" is not modelled. The model also does not tell a `null` `updatedAt` (read as 0) from a missing one (NaN, which makes `toISOString` throw). Both are `None`, and the formatter decides.
- `News.ToNews`: it says nothing about the `date` string beyond its being the formatter's result.
- `console.error` logging and the SvelteKit `json` response construction. Only the resulting status and body are kept: `Ok` is HTTP 200 with the array, `Fail` is the status with `{ error: message }`.
- Upstream JSON values of unexpected types are not modelled. These are a non-string title, description or URL, a truthy list entry that is not an object, and a body that is neither an object nor `null`. The record types carry the types the GraphQL schema promises. Falsy list entries (`null`, `0`, `""`, `false`) are all the absent entry.
- Strings are sequences of Dafny `char`. `slice(0, 200)` counts UTF-16 code units, and the model counts characters, so a surrogate pair that `slice` would split is not modelled.
