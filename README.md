# Gmail tools: draft serialisation, body selection and search records

A Dafny model of the logic inside three LangChain tools that wrap the Gmail
API:

- `GmailCreateDraft.prepareDraftMessage` lays out a draft as six lines
  (To, Subject, Cc or nothing, Bcc or nothing, an empty line, the message)
  joined by line feeds. It sends the UTF-8 bytes of that text as unpadded
  base64url (section 5 of RFC 4648).
- `GmailSearch._call` applies argument defaults, checks the
  `messages.list` response and dispatches on `resource`. `parseMessages`
  and `parseThreads` build one record per listed entry.
- `GmailGetMessage._call` looks up five headers, selects and truncates the
  body, and prefixes the JSON of the result.

Everything is modelled as pure functions over plain records, because the
code is pure once the API calls have returned:

- The API calls (`messages.list`, `messages.get`, `threads.get`) are
  function-typed parameters.
- So is `JSON.stringify`.
- So are the four helpers imported from `../util`: `decodeBase64Url`,
  `extractTextFromHtml`, `getBodyFromParts` and `truncateText`. Their
  definitions are not in `src/util.ts`. They are uninterpreted (any total
  function of the right type), so every property below holds whatever
  they do.

Modules:

- `Wrappers`: Option and Result.
- `Bytes`: octets.
- `Text`: `join` and line splitting.
- `Utf8`: the encoding `Buffer.from` applies.
- `Base64Url`: the draft's transfer encoding.
- `GmailSchema`: the API records and the first-match header lookup.
- `BodyResolver`: the body policy, which the code repeats in `search.ts`
  and `get_message.ts` and which is defined once here.
- `CreateDraft`, `Search`, `GetMessage`: one module per tool.

Each encoder has a partner decoder, and the round trip is proved in both
directions. `Utf8.Decode` and `Base64Url.Decode` are strict: they accept
exactly the encoder's outputs.

The layout of the draft is checked against the header/body split of
section 2.1 of RFC 5322: the header section ends at the first empty line.

Two points where the code is followed literally:

- The HTML asymmetry is kept. A direct `text/html` body goes through HTML
  extraction. HTML gathered from parts does not, and keeps its markup
  (`BodyResolver.HtmlReductionOnlyForDirectHtml`).
- The thread records come from the `messages.list` entries: `thread.id`
  and `thread.snippet` are read from those entries, as the code does. The
  thread body concatenates the parts' still-encoded `data`.

## Model

| member | source | states |
|---|---|---|
| `CreateDraft.PrepareDraftMessage` | src/gmail/create_draft.ts:25-50 | `raw` decodes to the UTF-8 bytes of the draft text, uses only `A-Z a-z 0-9 - _`, never `=`, and has length 4·⌊n/3⌋ plus 0, 2 or 3 for n mod 3 = 0, 1 or 2 |
| `CreateDraft.DraftRoundTrip` | src/gmail/create_draft.ts:47 | base64url-decoding and then UTF-8-decoding the draft's `raw` gives back the draft text exactly |
| `CreateDraft.EmailLayout` | src/gmail/create_draft.ts:38-45 | the text is `To: ` + recipients joined by `, `, then the Subject line, the Cc slot and the Bcc slot, each ended by a line feed, then an empty line, then the message |
| `CreateDraft.EmailFrame` | src/gmail/create_draft.ts:38-45 | the text starts with `To: ` and always ends with `\n\n` followed by the message verbatim |
| `CreateDraft.AddressSlots` | src/gmail/create_draft.ts:41-42 | a Cc or Bcc slot is empty exactly when its list is absent; a present empty list gives `Cc: ` or `Bcc: ` with nothing after |
| `CreateDraft.DraftSections` | src/gmail/create_draft.ts:38-45 | if no field holds a line feed: without Cc the header section is To and Subject only, and the body is the Bcc slot, `\n\n` and the message; with Cc but no Bcc the body is `\n` + message; with both, the headers are all four lines and the body is the message |
| `CreateDraft.BccLandsInBodyWithoutCc` | src/gmail/create_draft.ts:41-43 | with Cc absent and Bcc present, the Bcc line is not in the header section and the body begins with it |
| `CreateDraft.CorrectedDraftSections` | src/gmail/create_draft.ts:41-43 | if absent lists add no line, the header section is exactly the headers present and the body is exactly the message |
| `Utf8.Utf8RoundTrip` | src/gmail/create_draft.ts:47 | bytes decode to a text exactly when they are that text's UTF-8 encoding |
| `Utf8.DecodeEncode` | src/gmail/create_draft.ts:47 | decoding the UTF-8 bytes of any text gives the text back |
| `Utf8.EncodeDecode` | src/gmail/create_draft.ts:47 | any bytes the decoder accepts re-encode to themselves |
| `Base64Url.Encode` | src/gmail/create_draft.ts:47 | the encoding has the unpadded length and uses only the URL-safe alphabet |
| `Base64Url.Base64UrlRoundTrip` | src/gmail/create_draft.ts:47 | a text decodes to some bytes exactly when it is their unpadded base64url encoding |
| `Base64Url.DecodeEncode` | src/gmail/create_draft.ts:47 | decoding the encoding of any bytes gives the bytes back |
| `Base64Url.EncodeDecode` | src/gmail/create_draft.ts:47 | any text the decoder accepts is the canonical encoding of what it decodes to |
| `Text.SplitJoin` | src/gmail/create_draft.ts:38-45 | splitting at line feeds recovers the joined lines when none of them holds a line feed |
| `Text.JoinSplit` | src/gmail/create_draft.ts:38-45 | joining the lines of a text with line feeds gives the text back |
| `Text.JoinEmptyAt` | src/gmail/search.ts:130-132 | in a join with no separator, each element appears verbatim, in order, at the sum of the lengths before it |
| `GmailSchema.FindHeader` | src/gmail/search.ts:76-77 | the result is absent exactly when no header is named exactly so; otherwise it is the first such header |
| `GmailSchema.FindHeaderReturnsFirstMatch` | src/gmail/search.ts:76-77 | whenever a first header named exactly so exists, the lookup returns exactly that header |
| `GmailSchema.HeaderValueIsFirstValue` | src/gmail/get_message.ts:109-115 | `find(...)?.value` is absent when no header has the name and otherwise is the value of the first header that has it |
| `GmailSchema.FirstValueUnique` | src/gmail/get_message.ts:135-140 | the first-value property determines the value completely, so it pins down each header field of the results |
| `GmailSchema.FirstMatchWins` | src/gmail/get_message.ts:109-115 | headers after a match cannot change what the lookup returns |
| `GmailSchema.NoHeadersNoValues` | src/gmail/search.ts:74-77 | a lookup in an empty list gives an absent value, not an error |
| `BodyResolver.HtmlReductionOnlyForDirectHtml` | src/gmail/search.ts:83-97 | HTML extraction is applied once, on the direct body, exactly when `mimeType` is `text/html`; HTML from parts is never reduced |
| `BodyResolver.DirectBodyIgnoresParts` | src/gmail/search.ts:84-91 | a present `payload.body` is decoded from `data`, an absent `data` counting as `""`, and the parts never affect the result |
| `BodyResolver.PartsFallback` | src/gmail/search.ts:92-97 | without a direct body, the parts' text body is used when non-empty, else their HTML body; decoding and HTML helpers play no part |
| `BodyResolver.NoContentIsEmpty` | src/gmail/search.ts:83 | with neither a direct body nor parts the body is `""` |
| `Search.Defaults` | src/gmail/search.ts:29 | an omitted `maxResults` behaves as 10 and an omitted `resource` as `"messages"` |
| `Search.Errors` | src/gmail/search.ts:39-60 | the search fails exactly when `data` is missing, `messages` is missing or the resource is neither kind; the errors are No data, then No messages, then `Invalid resource` with the resource, and each carries the thrown message text |
| `Search.EmptyListIsNotAnError` | src/gmail/search.ts:45-57 | an empty `messages` array gives an empty listing, not an error |
| `Search.Dispatch` | src/gmail/search.ts:49-60 | `"messages"` yields the message records and `"threads"` the thread records, after the `Result for the query` prefix |
| `Search.ParseMessages` | src/gmail/search.ts:63-110 | one record per listed entry, in list order, each built from the message fetched by the entry's id (or `""`) |
| `Search.MessageRecord` | src/gmail/search.ts:74-106 | id, threadId and snippet are copied from the list entry; subject and sender are absent when no `Subject` or `From` header exists and otherwise are the values of the first such header; the body is the selected body truncated to 50 |
| `Search.ThreadRecord` | src/gmail/search.ts:123-142 | id and snippet are copied from the entry; subject and sender are the whole first `Subject` and `From` headers of the thread's first message, absent exactly when there is none |
| `Search.ParseThreads` | src/gmail/search.ts:112-147 | one record per listed entry, in list order, each built from the thread fetched by the entry's id (or `""`) |
| `Search.ThreadBodyLength` | src/gmail/search.ts:129-132 | with a part list, even an empty one, the thread body is exactly as long as the parts' data together, so no parts give `""` |
| `Search.ThreadBodyFromParts` | src/gmail/search.ts:129-132 | with parts, each part's raw `body.data` (`""` when missing) sits verbatim in the body at the sum of the lengths before it, in part order |
| `Search.ThreadBodyWithoutParts` | src/gmail/search.ts:133-135 | without parts, the thread body is `payload.body.data` undecoded when present, else `""` |
| `GetMessage.Call` | src/gmail/get_message.ts:134-141 | the result starts with `Result for the prompt ` + messageId + ` \n`, followed by the stringified summary of the message fetched by that id |
| `GetMessage.SummaryHeaders` | src/gmail/get_message.ts:107-115 | subject, from, to, date and messageId are absent when no header is named exactly `Subject`, `From`, `To`, `Date`, `Message-ID` respectively, and otherwise are the value of the first header with that name |
| `GetMessage.NoHeadersAllAbsent` | src/gmail/get_message.ts:107 | without a payload or a header list, all five header fields are absent |
| `GetMessage.SummaryBody` | src/gmail/get_message.ts:118-136 | the body truncated to 100 on each path: a direct body decoded from its data (`""` when absent) and reduced from HTML only for `text/html`; else the parts' text body, or their HTML body when that is empty; else `""` |

## Left out

- The Gmail API calls (`messages.list`, `messages.get`, `threads.get`, `drafts.create`) are function parameters. Their failures are left out, and so is the `Promise.all` fan-out, which rejects the whole batch when one fetch fails.
- `GmailCreateDraft._call` is left out: it only sends the draft and formats `Draft created. Draft Id: …` from the response.
- The bodies of `decodeBase64Url`, `extractTextFromHtml`, `getBodyFromParts` and `truncateText` are not part of this model: they are not defined in `src/util.ts`. The part-tree walk, HTML reduction and truncation marker they may implement are therefore not modelled.
- `JSON.stringify` is a parameter: only the fixed prefixes of the result texts are modelled. `console.log` calls are left out.
- The zod schemas, the tool descriptions and `GmailBaseTool` are left out. `resource` is taken as any text, so the `Invalid resource` path stays reachable.
- Text is a sequence of Unicode scalar values. JavaScript strings may also hold lone surrogates, which `Buffer.from` replaces with U+FFFD. That case is not represented.
- `null` and `undefined` in the API records are both modelled as an absent value.

## Findings

| source | as written | input that shows it | evidently intended | confidence | as-written member | corrected member |
|---|---|---|---|---|---|---|
| src/gmail/create_draft.ts:41-43 | an absent Cc list leaves an empty line in its slot, which ends the header section (section 2.1 of RFC 5322) right after Subject | `cc` omitted, `bcc` = `["b@example.com"]`: the header section is To and Subject only, and the body begins with `Bcc: b@example.com` | an absent list adds no line, so Bcc stays a header and the body is the message alone | high, not executed | `CreateDraft.BccLandsInBodyWithoutCc` | `CreateDraft.CorrectedDraftSections` |
