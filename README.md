# cloudflare-email-discord-notifier, modelled in Dafny

The notifier is a Cloudflare Email Worker. For each inbound email it runs two
branches side by side. One forwards the email to the addresses in the
`RECIPIENTS` setting. The other parses the `DISCORD_WEBHOOKS` setting into a
list of webhook URLs, renders the email as one text message, and posts it to
every webhook in pieces of at most 2000 characters.

This project models the notification branch of `src/index.ts`:

- `parseEnv`, the regular-expression splitter for settings (`EnvParser`);
- `chunkForDiscord`, the loop that cuts the message into pieces (`Chunker`);
- `formatAddresses`, `formatSingleAddress`, the body selection of
  `convertEmailToMarkdown`, and the header block plus body that is trimmed
  into the full message (`Render`);
- the nested loops of `sendDiscordNotification` that post every non-empty
  piece to every webhook, over a `Network` object that records each request
  with its outcome (`Notify`).

`Text` holds the JavaScript string operations the code relies on. A string is
a sequence of Dafny `char`s, each standing for one UTF-16 code unit of the
Basic Multilingual Plane (surrogates excluded, see "## Left out"):

- the whitespace class shared by `\s` and `trim`;
- `trimStart`, `trimEnd` and `trim`;
- `lastIndexOf` for one character;
- `join`.

`Wrappers` holds `Option`.

The pure code is written as datatypes, functions and lemmas. The
`chunkForDiscord` loop is a `method` with a `while` loop, proved equal to the
function `Chunker.Chunks`. The post loops are a `method` with two nested loops
over a `Network` class. Its `log` field grows by one attempt per `fetch`.

### Behaviour a reader might not expect

The model follows the code in each of these points.

- **Body selection.**
  - The raw HTML is returned only when the conversion call throws.
  - A result with no usable text, or no converter at all, falls through to the plain text and then to the placeholder. The HTML body is ignored then (`Render.NoConverterIgnoresHtml`, `Render.UnusableResultIsNoConverter`).
- **Empty chunks.**
  - The code appends the first cut even when `trimEnd` leaves it empty: content that is whitespace only and longer than the limit gives `[""]` (`Chunker.BlankContentGivesEmptyChunk`).
  - The post loop skips such a piece.
  - The last piece is appended untrimmed.
- **Network errors.**
  - A non-2xx response is only logged.
  - A `fetch` that rejects is not caught. It ends the whole loop: later chunks and later webhooks get no request (`Notify.SendToWebhooks`).
- **Ordering.** Webhooks are served one after another, never concurrently, and the chunks of each in order.

## Model

| member | source | states |
|---|---|---|
| Text.IsWhitespace | src/index.ts:17 | no ensures of its own: the ECMAScript WhiteSpace and LineTerminator set shared by `\s` and the trims; `Text.NotWhitespace`, `Text.LineBreakIsWhitespace` and `Text.SpaceIsWhitespace` state the facts used about it |
| Text.NotWhitespace | src/index.ts:17 | printable ASCII other than the space, and CJK characters, are not whitespace |
| Text.LineBreakIsWhitespace | src/index.ts:169-171 | the line break is whitespace |
| Text.SpaceIsWhitespace | src/index.ts:17 | the space is whitespace |
| Text.TrimStart | src/index.ts:171 | the result is a suffix of the input, everything removed is whitespace, and the result starts with a non-whitespace character or is empty |
| Text.TrimEnd | src/index.ts:169 | the result is a prefix of the input, everything removed is whitespace, and the result ends with a non-whitespace character or is empty |
| Text.Trim | src/index.ts:93 | the result is an infix of the input with only whitespace on either side of it, and neither end of the result is whitespace |
| Text.TrimEmptyIff | src/index.ts:145-146 | the trim of a string is empty exactly when the string is whitespace only |
| Text.TrimStartUnique | src/index.ts:171 | any suffix meeting TrimStart's characterisation is TrimStart's result |
| Text.TrimEndUnique | src/index.ts:169 | any prefix meeting TrimEnd's characterisation is TrimEnd's result |
| Text.TrimEndConcat | src/index.ts:93 | trimming the end of a + b removes part of a only when b is whitespace only |
| Text.LastIndexOf | src/index.ts:165 | the result is -1 or an index at most `from` holding the character, and no later index up to `from` holds it |
| Text.Join | src/index.ts:124 | no ensures of its own: `join`, the parts with the separator between each two; `Text.JoinStartsWithFirst`, `Text.JoinEndsWithLast`, `Render.FormatAddressesCons` and `Render.JoinedLines` state what is used about it |
| Text.JoinStartsWithFirst | src/index.ts:93 | a join starts with the first character of its first part |
| Text.JoinEndsWithLast | src/index.ts:124 | a join ends with the last character of its last part |
| EnvParser.Scan | src/index.ts:17-19 | no ensures of its own: the left-to-right matches of the regular expression, each giving its capture; characterised by `EnvParser.ScanEmptyIff`, `EnvParser.ScanSkipsSeparators`, `EnvParser.ScanQuoted`, `EnvParser.ScanRun` and `EnvParser.ScanIsFieldSplitting` |
| EnvParser.ParseEnv | src/index.ts:12-19 | no ensures of its own: `parseEnv`; characterised by `EnvParser.ParseEnvNoEntries` and the round trips `EnvParser.ScanJoinBare` and `EnvParser.ScanJoinQuoted` |
| EnvParser.ParseEnvNoEntries | src/index.ts:12-19 | a setting gives no entries exactly when it is absent or made only of whitespace and commas; a present value is scanned as it stands |
| EnvParser.ScanEmptyIff | src/index.ts:17-19 | the scan finds no match exactly when every character is a separator |
| EnvParser.ScanSkipsSeparators | src/index.ts:17-18 | separators in front of a value add no entries |
| EnvParser.ScanQuoted | src/index.ts:17-19 | a quote, text without that quote, and the same quote yields the text verbatim, separators included, and scanning resumes after the closing quote |
| EnvParser.ScanRun | src/index.ts:17-19 | a maximal run of non-separators is one entry, quotes inside it included, even a leading quote that is never closed |
| EnvParser.UnmatchedQuoteIsLiteral | src/index.ts:17-19 | `a"b` gives `a"b` and `'ab` gives `'ab` |
| EnvParser.ScanJoinBare | src/index.ts:12-19 | entries without separators or quotes, joined by any non-empty separator run, parse back to the same list |
| EnvParser.ScanJoinQuoted | src/index.ts:12-19 | entries free of a quote character, empty ones included, quoted and joined by any separator run, parse back to the same list |
| EnvParser.ScanIsFieldSplitting | src/index.ts:17-19 | without quotes, the scan equals a reference splitter that cuts at every separator and drops empty fields |
| EnvParser.ScanMixedEntries | src/index.ts:17-19 | three bare entries separated by a comma and spaces, then a double-quoted and a single-quoted entry, give the five entries in order |
| EnvParser.ParseEnvExample | src/index.ts:12-19 | `a,b c "d e" 'f g'` gives a, b, c, d e and f g |
| Chunker.CutIndex | src/index.ts:165-168 | the cut lies between 1 and the limit; it is the last line break in positions 1 to limit, or the limit when there is none |
| Chunker.Chunks | src/index.ts:160-179 | every chunk is at most the limit long |
| Chunker.ChunkForDiscord | src/index.ts:160-179 | the loop returns exactly `Chunks(content, limit)`; every chunk is within the limit; content within the limit is one chunk, or none when it is empty |
| Chunker.ChunksReassemble | src/index.ts:169-171 | content is its chunks interleaved with whitespace-only gaps, so no non-whitespace character is lost, duplicated or reordered |
| Chunker.ChunksStartNonWhitespace | src/index.ts:169-176 | when content does not start with whitespace, every chunk is non-empty and starts with a non-whitespace character |
| Chunker.LaterChunksStartNonWhitespace | src/index.ts:171-176 | every chunk after the first is non-empty and starts with a non-whitespace character |
| Chunker.BlankContentGivesEmptyChunk | src/index.ts:164-176 | whitespace-only content longer than the limit gives exactly one empty chunk |
| Chunker.CutAtLastLineBreak | src/index.ts:164-176 | x, a line break and y, with the line break within reach and y too long to join x, give the chunks x and y |
| Chunker.LineBreakCutExample | src/index.ts:164-176 | `AAAA\nBBBB\nCCCC` at limit 9 gives `AAAA\nBBBB` and `CCCC` |
| Render.ListEntry | src/index.ts:124 | one list entry, `name <address>`, ends with `>` |
| Render.FormatAddresses | src/index.ts:120-125 | the result is "N/A" exactly when the list is absent or empty; it never ends in whitespace |
| Render.FormatAddressesCons | src/index.ts:124 | a list of addresses is formatted as its first entry `name <address>`, then ", " and the rest's formatting |
| Render.FormatSingleAddress | src/index.ts:127-133 | "N/A" exactly when absent; `<address>` without a name; `name <address>` with one; never ends in whitespace |
| Render.SingleAndListFormats | src/index.ts:120-133 | a named address reads the same as sender and as a one-entry list; unnamed, the list entry has an extra leading space |
| Render.Converted | src/index.ts:145 | there is converted text exactly when the first result exists and has data; that text has no whitespace at either end; it is empty, so not usable, exactly when the data is whitespace only |
| Render.TextOrPlaceholder | src/index.ts:154-157 | the plain text when it is not empty, else the placeholder; never empty |
| Render.ConvertEmailToMarkdown | src/index.ts:135-158 | never empty; the raw HTML when an HTML body exists and conversion throws; the trimmed conversion when usable; otherwise the plain text or the placeholder |
| Render.NoConverterIgnoresHtml | src/index.ts:137 | without a converter, the HTML body has no effect on the result |
| Render.UnusableResultIsNoConverter | src/index.ts:145-148 | a missing first result, missing data, or whitespace-only data selects the body as if there were no converter |
| Render.ConvertedBodyIsTrimmed | src/index.ts:145-147 | a converted body has no whitespace at either end |
| Render.SubjectLine | src/index.ts:86 | the line starts with `件名: `, followed by the subject when it is not empty, else by "No Subject" |
| Render.HeaderLines | src/index.ts:85-91 | five lines: the subject line, then lines labelled `From: `, `To: `, `CC: ` and `BCC: `, each of those four ending in a character that is not whitespace |
| Render.JoinedLines | src/index.ts:93 | the header lines joined by line breaks start as the subject line does and end in a character that is not whitespace |
| Render.FullMessage | src/index.ts:93 | no ensures of its own: the header lines joined by line breaks, a blank line and the body, trimmed; characterised by `Render.FullMessageShape` |
| Render.TrimAroundBlankLine | src/index.ts:93 | trimming a text with no whitespace at either end, a blank line and a body keeps the text whole and removes only the body's trailing whitespace, with the blank line when the body is whitespace only |
| Render.FullMessageShape | src/index.ts:93 | the trimmed message is the header unchanged, then a blank line and the body with its trailing whitespace removed (nothing after the header when the body is whitespace only); it is never empty |
| Notify.Network.Post | src/index.ts:101-107 | one request for the URL and chunk is appended to the log, with whatever outcome the network gives |
| Notify.PostsToNonEmpty | src/index.ts:97-107 | one webhook gets one request per non-empty chunk, in chunk order |
| Notify.DeliveriesLayout | src/index.ts:96-107 | the complete request sequence has length webhooks × non-empty chunks, and request i·m + j posts non-empty chunk j to webhook i |
| Notify.DeliveryAt | src/index.ts:96-107 | for every webhook i and non-empty chunk j, request i·m + j exists and posts chunk j to webhook i |
| Notify.NonEmptyKeepsAll | src/index.ts:98-100 | when no chunk is empty, the skip drops nothing |
| Notify.SendToWebhooks | src/index.ts:96-117 | the log gains a prefix of the complete request sequence; only the last new attempt can have been rejected; the result is true exactly then; otherwise every request has been made |
| Notify.SendDiscordNotification | src/index.ts:79-117 | the requests made are a prefix of the complete sequence for the chunks of the trimmed full message at limit 2000, and all of it unless a fetch rejected |
| Notify.NotificationChunks | src/index.ts:93-100 | the full message gives at least one chunk; every chunk is non-empty and at most 2000 long, so the skip never fires |
| Notify.MessageChunks | src/index.ts:94-100 | a message that starts with a non-whitespace character gives only non-empty chunks |
| Notify.HandleEmail | src/index.ts:29-33 | the webhooks come from parsing `DISCORD_WEBHOOKS`; the requests made are a prefix of the complete sequence for them, and all of it when no fetch rejected |

## Left out

- Parsing of the raw message by postal-mime (src/index.ts:74-76): the model takes the parsed email as an input `Render.Email`. A parse failure is not modelled, so no rejection exists before the loops.
- The subject (src/index.ts:83): `message.headers.get('subject')` is an input of the model.
- The HTML-to-Markdown service (src/index.ts:139-144): the `Blob` and the call are not modelled. Its outcome (no converter, throws, or returns results) is an input `Render.AiOutcome`.
- The HTTP semantics of `fetch` and the JSON encoding of the payload (src/index.ts:101-107): a request is modelled as its URL and chunk text. An outcome is a status or a network rejection, chosen freely by `Notify.Network.Post`.
- Logging (src/index.ts:27, 30, 36, 110-114, 150): writes to the console only.
- `response.text()` on a non-ok response (src/index.ts:113): modelled as always resolving. A rejection there would also end the loop.
- `forwardEmails`, `parseEnv(env.RECIPIENTS)` and `Promise.allSettled` (src/index.ts:26, 32-52): forwarding is independent of the notification and made of foreign calls. allSettled only means that the outcome of `Notify.HandleEmail` is discarded.
- Address fields: `Render.Address` has a string name, so a name that is `undefined` (which the template would print as "undefined") and postal-mime group entries are not modelled.
- Chunker.ChunkForDiscord: requires a limit of at least 1. With limit 0 the source returns `[]` for empty content and `[""]` for whitespace-only content, but loops forever when the content holds any non-whitespace character: each round cuts at index 0 and `trimStart` removes only whitespace. The only caller uses 2000.
- Characters outside the Basic Multilingual Plane: a Dafny `char` is never a surrogate code unit, so the model covers strings of BMP code units only. A character such as an emoji, which is two code units in JavaScript, has no representation. So the model does not capture that such a character counts twice towards the 2000 limit, nor that a hard cut at the limit (src/index.ts:167) can split its surrogate pair.
- `response.ok` (src/index.ts:109): it only decides whether the failure is logged, so the model treats every status alike.
- Notify.DeliveriesLayout: the per-cell clause carries the redundant guard `i·m + j < n·m`. `Notify.DeliveryAt` states the cells without it.
