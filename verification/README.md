# Netflix household-update mail watcher — Dafny model

The watcher (`index.js`) listens to an IMAP inbox. For each new message it
picks a subject, keeps the message only when that subject contains the
phrase "Importante: Cómo actualizar tu Hogar con Netflix", and scans the
message content for Netflix URLs. It then takes the first URL that starts
with `https://www.netflix.com/account/update-primary-location?` and opens
it in a headless browser to click the confirmation button. It also keeps
the inbox at no more than 1000 messages by deleting the leading excess of
the server's message listing.

This project models the three pure decisions inside that I/O-driven script:

- **Link extraction** (`extractNetflixLink`). The global match of
  `/https?:\/\/www\.netflix\.com\/[^\s]+/g` is written as an explicit
  left-to-right walk (`LinkScan.Scan`). At each position the walk tries the
  pattern. On success it records the greedy match and resumes after it; on
  failure it moves on by one character. The walk is proved equal to an
  independent description: ordered greedy matches, with no match starting
  in any gap (`LinkScan.LeftmostTokens`, `LinkScan.LeftmostTokensUnique`).
  `links.find(...)` is modelled as the first index satisfying a predicate
  (`Seqs.Find`).
- **Relevance filter** (`mail` handler). The subject is the header subject
  when it is a non-empty string, otherwise the parser's subject. The
  message is relevant when that subject contains the exact phrase. The
  content scanned is the HTML body when it is non-empty, otherwise the
  text body (`MailFilter.HandleMail`).
- **Inbox housekeeping** (`checkAndCleanInbox`). From the listed UIDs, the
  UIDs to delete are `slice(0, n - 1000)` when `n > 1000`, and none
  otherwise (`Housekeeping.SelectForDeletion`, `Housekeeping.DeleteRequest`).
  `slice` follows the ECMAScript rules, negative indices included
  (`Seqs.JsSlice`).

Files: `wrappers.dfy` (Option), `text.dfy` (prefix and substring tests, the
`\s` class), `seqs.dfy` (`find`, `slice`), `link_scan.dfy` (the pattern and
the global match), `link_extraction.dfy` (`extractNetflixLink`),
`mail_filter.dfy` (subject and content choice), `housekeeping.dfy` (UID
selection).

Modelling decisions:

- `\s` is the full ECMAScript class: the WhiteSpace code points (tab, vertical
  tab, form feed, space, U+00A0, U+FEFF and the Unicode "Zs" separators) and
  the LineTerminator code points (LF, CR, U+2028, U+2029). Dafny characters
  are Unicode scalar values, while JavaScript strings are UTF-16 code units.
  A character outside the Basic Multilingual Plane is one character here and
  two code units there. Neither half is whitespace, so the matched texts are
  the same.
- JavaScript `null`/`undefined`/`false` for an absent string are `None`.
  Truthiness of a string is "present and non-empty".
- When the subject matches but neither `html` nor `text` is present,
  `parsed.html || parsed.text` is `undefined` and the source throws a
  `TypeError` at `content.match`. The model makes that an explicit outcome
  (`ContentMissing`) rather than a precondition.
- Housekeeping deletes the leading part of whatever order the server's `ALL`
  search returns (index.js:186-196). The log messages at index.js:191 and 197
  call these "correos antiguos" (old mails), but nothing in the code sorts the
  listing by date. So the model only promises "prefix of the given order".
- The `TypeError` of a missing content is thrown inside the message loop,
  but the only `catch` around it is outside the loop (index.js:41-77). So one
  such message ends the processing of its batch, and the messages after it
  in that batch are not looked at. The model decides one message at a time,
  and `ContentMissing` stands for that abort.

## Model

| member | source | states |
|---|---|---|
| `Text.Includes` | index.js:61 | the substring search is true exactly when some index of the subject starts an occurrence of the phrase |
| `Seqs.Find` | index.js:106-108 | `find` returns the index of an element satisfying the predicate, with every earlier element failing it; it returns none exactly when no element satisfies it |
| `Seqs.RelativeIndex` | index.js:193 | a relative index of `slice` is clamped into `[0, n]`: a non-negative index is kept up to `n` and becomes `n` beyond it, and a negative one counts back from the end and becomes 0 below `-n` |
| `Seqs.JsSlice` | index.js:193 | `slice(start, end)` is empty when the clamped end is not after the clamped start, and otherwise is exactly the elements from the clamped start up to the clamped end; for `0 <= start <= end <= n` that is the elements between them, and a negative end counts back from the end of the list |
| `LinkScan.RunEnd` | index.js:102 | the greedy `[^\s]+` stops at the first whitespace character or at the end of the content, and everything it consumed is non-whitespace |
| `LinkScan.MatchEnd` | index.js:102 | trying the pattern at one position either yields a greedy match (host prefix, at least one more character, no whitespace, ending at whitespace or the end), or no text starting there is in the pattern |
| `LinkScan.GreedyMatchUnique` | index.js:102 | the greedy match at a position is unique: two greedy matches from one position end at the same place |
| `LinkScan.ScanIsLeftmost` | index.js:102-103 | the global match walk (`LinkScan.Scan`, which models the `/g` match) yields greedy matches in increasing, non-overlapping order, and the pattern fails at every position in the gaps before, between and after them |
| `LinkScan.UniqueStep` | index.js:102-103 | a leftmost tokenization begins with what the global match records at its start position (the greedy match there, or nothing where the pattern fails), and the rest of it is a leftmost tokenization from where the match resumes |
| `LinkScan.LeftmostTokensUnique` | index.js:102-103 | any span sequence that is ordered, non-overlapping, greedy and leaves no match in its gaps is exactly what the global match returns |
| `LinkExtraction.NoSpansIffClear` | index.js:102-105 | the walk over the whole content reports no match exactly when the pattern fails at every position, which is when `match` returns `null` |
| `LinkExtraction.MatchAll` | index.js:103-105 | every element of `content.match(regex)` is a text of the pattern, and the result is empty (`null`) exactly when the pattern fails at every position |
| `LinkExtraction.ExtractNetflixLink` | index.js:100-112 | the result starts with the approval prefix; it is null exactly when no match starts with that prefix; otherwise it is the first such match in document order |
| `LinkExtraction.NoNetflixUrlNoLink` | index.js:103-111 | when no substring of the content matches the Netflix URL pattern, the result is null |
| `LinkExtraction.ResultIsHttps` | index.js:102-108 | a non-null result starts with `https://www.netflix.com/` and never with `http://www.netflix.com/`, although the scan admits both |
| `LinkExtraction.MatchShape` | index.js:102-103 | each match is the content between two positions, starts with a host prefix with at least one character after its `/`, has no whitespace, ends at whitespace or at the end of the content, and ends no later than the next match starts |
| `LinkExtraction.ResultIsWhitespaceFreeRun` | index.js:102-109 | a non-null result is a whitespace-free substring of the content that starts with the approval prefix and ends at whitespace or at the end of the content (it need not reach back to the previous whitespace) |
| `LinkExtraction.SoleLinkIsExtracted` | index.js:100-109 | content consisting of one whitespace-free approval link yields exactly that link |
| `MailFilter.HandleMail` | index.js:57-70 | a message is acted on exactly when the chosen subject (header first, parser second) contains the phrase; only then is content examined, and a missing content is an error; with content present (HTML first, text second), a link is approved exactly when `extractNetflixLink` returns one, and the approved link is the one it returns; otherwise no link is reported |
| `MailFilter.IrrelevantMailIgnored` | index.js:61-73 | a chosen subject that is absent, empty or lacks the exact phrase leads to the message being ignored, whatever its content |
| `MailFilter.HeaderSubjectTakesPrecedence` | index.js:57 | with a non-empty header subject, the parser's subject has no influence on the outcome |
| `MailFilter.HtmlTakesPrecedence` | index.js:63 | with non-empty HTML, the text body has no influence on the outcome |
| `MailFilter.ApprovalMailIsApproved` | index.js:57-67 | a message whose chosen subject contains the phrase and whose chosen content yields a link from `extractNetflixLink` leads to approving exactly that link |
| `Housekeeping.SelectForDeletion` | index.js:186-200 | deleted followed by retained is the original listing; min(n, 1000) UIDs are retained; nothing is deleted at or under 1000; exactly n - 1000 are deleted above it |
| `Housekeeping.DeleteRequest` | index.js:190-198 | `deleteMessages` is called exactly when there are more than 1000 messages, with a non-empty leading part of the listing that leaves exactly 1000 behind |
| `Housekeeping.DeletedArePrefixRetainedAreSuffix` | index.js:192-196 | the deleted UIDs are the first ones of the listing and the retained ones are its last min(n, 1000), both in listing order |
| `Housekeeping.CleanupIsIdempotent` | index.js:190-200 | cleaning up the retained inbox again deletes nothing and makes no delete call |
| `Housekeeping.DeletedAndRetainedDisjoint` | index.js:192-196 | with distinct UIDs, no UID is both deleted and retained |
| `Housekeeping.UnguardedSliceWouldDelete` | index.js:190-193 | the `n > 1000` guard is needed: for any `n < 1000`, the unguarded `slice(0, n - 1000)` would select the first `2n - 1000` UIDs, a non-empty list, whenever `n > 500`, and none otherwise |

## Left out

- IMAP connection, `openBox`, `search`, the `mail`/`error`/`end` handlers, the `markSeen` side effect and the reconnect after 5 seconds (index.js:23-98, 207-210): network I/O and event-loop timing.
- The loop over fetched messages, the lookup of the `HEADER` and `TEXT` parts and the early `continue` for a message without headers (index.js:46-56): part of the `mail` handler, which is I/O. The model decides one message at a time.
- `simpleParser` (index.js:56): a foreign MIME parser. Its output `{subject, html, text}` is an input (`MailFilter.ParsedMail`).
- The header subject is taken as a string, as the code reads it. How the IMAP library represents header fields is not part of this model. This matters: if the library gives a header field as an array of strings, `subject.includes(...)` at index.js:61 is `Array.prototype.includes`. That tests whether one whole element equals the phrase, not whether the phrase occurs inside it. A header subject with more text around the phrase would then be ignored, where the model says it is acted on.
- `approveHomeUpdate` and `confirmHomeUpdate` (index.js:114-180): HTTP fetch and browser automation (launch, navigation, iframe lookup, clicks, 60 s waits). An `Approve` outcome stands for the call of `approveHomeUpdate`.
- The `deleteMessages` call itself and the `ALL` search (index.js:186, 196): mailbox I/O. The model says which UIDs are passed, as a prefix of the server's order. It makes no claim that they are the oldest.
- dotenv configuration, TLS options and logging (index.js:7-18 and the `console` calls): no logic.
