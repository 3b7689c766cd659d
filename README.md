# Gmail source adapter: a verified model

This project models the core of the Gmail source adapter of Insilica Nerve,
`src/nerve_source_gmail/source.py`. The adapter turns Gmail API message
resources into normalized events. The model covers:

- the helper functions `decode_body`, `get_body_text`, `get_header` and
  `parse_email_addresses`;
- the `GmailSource` class: its per-user service cache (`get_service`), the
  query `fetch_events` builds from `since`, the full listing with its
  skip-on-error loop, the conversion in `_fetch_message`, and
  `sync_incremental` with its id collection and its 404 mapping.

Modules, following the structure of the source file:

- `Wrappers`: `Option` and `Result`.
- `Text`: ASCII `lower()`, `startswith`, `\d`, and `str.replace` for single characters.
- `Base64`: `base64.urlsafe_b64decode` on a `str`, written as the decoding
  loop of CPython's `binascii.a2b_base64` in its default non-strict mode. An
  encoder is its partner; the two are joined by a round-trip lemma.
- `Headers`: `get_header`, and `re.findall(r"[\w\.-]+@[\w\.-]+", ...)`
  written as the regex engine's left-to-right scan.
- `Mime`: the MIME part tree, `decode_body`, the tag stripping
  `re.sub(r"<[^>]+>", "", html)`, and the two passes of `get_body_text`.
- `Selection`: "keep the present values, in order". This is the shared shape
  of the attachment loop and of the listing loop.
- `Normalize`: the message and event records, the timestamp rule, the
  attachment loop (a method) and the conversion of `_fetch_message`.
- `Sync`: the query, the mailbox API as a value of functions, the two fetch
  loops, the id collection, and the `GmailSource` class.
- `AddressExample`, `QueryExample`: worked examples.

Calls into code outside the model are parameters:

- The Gmail API is a `Mailbox` value. Each call's outcome is fixed by its
  arguments: `Ok` with the listing or the message, or `Err` with the HTTP
  status of the `HttpError` the call raises.
- Credential lookup, refresh and `build(...)` together are one function,
  `authorize`, given to the `GmailSource` constructor.
- UTF-8 decoding with `errors="replace"`, `parsedate_to_datetime`, and the
  `int(...)` / `datetime.fromtimestamp` pair are fields of a `Library` value.
- A generator becomes a method that returns the whole sequence of events it
  would yield. An exception that escapes becomes an `Err` result.

Behaviour of the code that is easy to misread, and that the model follows:

- **Date header.** A Date header that is present but does not parse falls
  back directly to the processing time. `internalDate` is consulted only when
  the Date header is empty (`Normalize.ResolveTimestamp`).
- **HTML fallback.** The fallback is tried at each level of the part tree,
  over that level's own children only, and only when the first pass at that
  level found nothing. It is not a global second pass.
- **Empty plain text.** A `text/plain` part ends the search even when its
  text is empty. Such a part hides any `text/html` sibling that follows it
  (`Mime.EmptyPlainHidesHtml`).
- **Skipped fetches.** Every `HttpError` from a per-message fetch is skipped,
  whatever its status, not only a missing message.

## Model

| member | source | states |
|---|---|---|
| Base64.UrlSafeRoundTrip | src/nerve_source_gmail/source.py:29 | Decoding the URL-safe, padded encoding of any byte string gives back exactly those bytes |
| Base64.DecodeEncode | src/nerve_source_gmail/source.py:29 | From any output prefix, the decoding loop run on an encoding appends exactly the encoded bytes and ends in a successful state |
| Base64.UnpaddedFails | src/nerve_source_gmail/source.py:28-31 | A quantum cut short without its padding ("aGk") is rejected, as CPython reports "Incorrect padding" |
| Base64.UrlSafeDecode | src/nerve_source_gmail/source.py:29 | A string is accepted only when all of its characters are ASCII |
| Base64.NonAsciiFails | src/nerve_source_gmail/source.py:28-31 | A string holding any non-ASCII character is rejected before decoding |
| Base64.EncodeLength | src/nerve_source_gmail/source.py:29 | The encoding takes four characters per three bytes, rounding up |
| Mime.DecodeBody | src/nerve_source_gmail/source.py:24-31 | Empty data gives ""; data the base64 decoder rejects gives ""; otherwise the result is the UTF-8 text of the decoded bytes |
| Mime.DecodeBodyOfEncoded | src/nerve_source_gmail/source.py:24-31 | Body data that encodes non-empty bytes decodes to the UTF-8 text of those bytes |
| Mime.StripTags | src/nerve_source_gmail/source.py:61 | Stripping never makes the text longer |
| Mime.StripTagsKeepsTextAroundTag | src/nerve_source_gmail/source.py:61 | For any text `a` without `<`, any non-empty tag body `x` without `>` and any rest `b`, stripping `a<x>b` gives `a` followed by the stripped `b` |
| Mime.StripTagsDropsLeadingTag | src/nerve_source_gmail/source.py:61 | A leading tag `<x>`, with `x` non-empty and free of `>`, is removed and the rest is stripped as if it stood alone |
| Mime.StripFromKeepsText | src/nerve_source_gmail/source.py:61 | Scanning from any position of a text without `<`, the rest of that text is kept as it is and what follows it is stripped on its own |
| Mime.StripTagsKeepsStrayLt | src/nerve_source_gmail/source.py:61 | For any text `a` without `<` and any rest `b` that is empty, starts with `>` or holds no `>`, stripping `a<b` gives `a<` followed by the stripped `b`: a `<` that starts no tag is kept, since `<[^>]+>` needs at least one character before its `>` |
| Mime.StripTagsKeepsLeadingStrayLt | src/nerve_source_gmail/source.py:61 | A leading `<` that starts no tag is kept, and the rest is stripped on its own |
| Mime.StripTagsLeavesNoTag | src/nerve_source_gmail/source.py:61 | After stripping, the text holds no substring matching `<[^>]+>` |
| Mime.StripTagsPlainText | src/nerve_source_gmail/source.py:61 | Text without `<` is left unchanged |
| Mime.StripTagsExample | src/nerve_source_gmail/source.py:61 | `<p>Hi</p>` becomes `Hi` |
| Mime.StripTagsNestedExample | src/nerve_source_gmail/source.py:56-61 | `<p>Hi <b>you</b></p>` becomes `Hi you`: tags are removed and the inner text stays |
| Mime.PartText | src/nerve_source_gmail/source.py:34-63 | A part with no direct data whose first loop finds nothing yields text that contains no tag |
| Mime.PlainPass | src/nerve_source_gmail/source.py:44-54 | The first loop finds nothing only when no remaining child is `text/plain`; when it finds something, some remaining child is `text/plain` or a multipart |
| Mime.HtmlPass | src/nerve_source_gmail/source.py:56-61 | The HTML fallback never yields a tag, and yields "" when no remaining child is `text/html` |
| Mime.PlainPassFirstStop | src/nerve_source_gmail/source.py:43-54 | The first loop finds nothing exactly when no child is `text/plain` or a multipart with non-empty text. Otherwise it returns the text of the first child that is one of these |
| Mime.HtmlPassFirstHtml | src/nerve_source_gmail/source.py:56-63 | The HTML fallback gives the stripped text of the first `text/html` child, or "" when there is none; its result never contains a tag |
| Mime.BodyPrecedence | src/nerve_source_gmail/source.py:34-63 | Non-empty direct data wins. Otherwise the first stopping child decides. Only when no child stops does the HTML fallback of the same level decide, yielding tag-free text. When some child stops, a first such child exists, so one of the three cases always applies |
| Mime.EmptyPlainHidesHtml | src/nerve_source_gmail/source.py:47-48 | An empty `text/plain` child returns "" even when a non-empty `text/html` child follows |
| Mime.GetBodyText | src/nerve_source_gmail/source.py:36-37 | A missing payload has no text |
| Mime.EmptyPayloadText | src/nerve_source_gmail/source.py:36-63 | An empty payload, with no data and no parts, has no text |
| Headers.GetHeader | src/nerve_source_gmail/source.py:66-71 | The value of the first header whose name matches case-insensitively; "" when no header matches |
| Headers.GetHeaderCaseInsensitive | src/nerve_source_gmail/source.py:69 | Names that differ only in case look up the same value |
| Headers.GetHeaderFirstWins | src/nerve_source_gmail/source.py:68-70 | Headers after the first match cannot change the answer |
| Headers.MatchAt | src/nerve_source_gmail/source.py:79 | A match found at a position is an `X@Y` occurrence starting there, and the character after it, if any, cannot extend it |
| Headers.Spans | src/nerve_source_gmail/source.py:79 | Every reported span lies within the text, after the scan's start, and is non-empty |
| Headers.ParseEmailAddresses | src/nerve_source_gmail/source.py:74-79 | An empty value gives []. Each result is the substring of one reported span, and every span is an `X@Y` occurrence that cannot be extended on either side. The spans are in left-to-right order and do not overlap. Every `X@Y` occurrence starts inside some span |
| Headers.SpansAreMaximalAddresses | src/nerve_source_gmail/source.py:79 | Every span the scan reports is an `X@Y` occurrence that cannot be extended to the left or right |
| Headers.SpansOrdered | src/nerve_source_gmail/source.py:79 | The reported spans are in left-to-right order and do not overlap |
| Headers.SpansComplete | src/nerve_source_gmail/source.py:79 | No `X@Y` occurrence is missed: each one starts inside a reported span |
| Headers.NoAtNoAddresses | src/nerve_source_gmail/source.py:74-79 | A value without `@` yields no addresses |
| Headers.SingleAddress | src/nerve_source_gmail/source.py:74-79 | A value that is exactly one address yields that address alone |
| AddressExample.ParseExample | src/nerve_source_gmail/source.py:74-79 | `Jane Doe <jane@example.com>, bob@x.org` yields `jane@example.com` and then `bob@x.org` |
| Sync.BuildQuery | src/nerve_source_gmail/source.py:120-126 | The query is non-empty exactly when `since` is present and starts with `dddd-dd-dd`. It is then `after:` followed by `since` with every `-` replaced by `/` |
| Sync.QueryKeepsDate | src/nerve_source_gmail/source.py:125 | For a `since` that starts with a `dddd-dd-dd` date and holds no `/`, the query starts with `after:` and the rest is `since` with only its separators changed: writing `/` back as `-` recovers `since` |
| QueryExample.DateQuery | src/nerve_source_gmail/source.py:124-125 | `2024-01-15` becomes `after:2024/01/15` |
| QueryExample.NoQuery | src/nerve_source_gmail/source.py:121-126 | A history id and an absent `since` give the empty query |
| Normalize.ResolveTimestamp | src/nerve_source_gmail/source.py:170-178 | A non-empty Date header is parsed and `internalDate` is then never used. Only an empty Date header lets `internalDate` be used. The processing time is chosen exactly when the chosen source fails |
| Normalize.ScanAttachments | src/nerve_source_gmail/source.py:191-198 | The loop's flag holds exactly when some top-level part has a filename. Its list is the list of present ids over the parts |
| Normalize.AttachmentIdsInOrder | src/nerve_source_gmail/source.py:194-198 | The ids are listed in part order. They belong to exactly the parts that have both a filename and an attachment id |
| Normalize.AttachmentIdsBounded | src/nerve_source_gmail/source.py:192-198 | There are at most as many ids as top-level parts, and any id implies the flag |
| Normalize.NamedPartWithoutId | src/nerve_source_gmail/source.py:195-197 | A part with a filename but no attachment id sets the flag and adds no id |
| Normalize.AttachmentsIgnoreNested | src/nerve_source_gmail/source.py:194 | The children of the top-level parts never affect the flag or the ids |
| Normalize.Subject | src/nerve_source_gmail/source.py:164 | The title is never empty: the Subject header's value when it is non-empty, and "(no subject)" otherwise |
| Normalize.Classify | src/nerve_source_gmail/source.py:181-185 | The event is a sent email exactly when the labels contain `SENT`, and a received email exactly when they do not |
| Normalize.Convert | src/nerve_source_gmail/source.py:160-221 | The conversion as the source computes it, with the attachment loop run in place, builds the event of the specification function |
| Normalize.ToEvent | src/nerve_source_gmail/source.py:160-221 | The event names the fetched message and its user, its title is never empty, and its content is empty only when the snippet is |
| Normalize.ToEventSpec | src/nerve_source_gmail/source.py:164-221 | The event's fields: source "gmail"; the fetched id and the user; SENT exactly when the label is present; the Subject or "(no subject)"; the body or, when it is empty, the snippet; the thread, labels, snippet and history id carried over; addresses parsed from To and Cc; the From, To and Cc header values; the attachment flag and the attachment ids of the top-level parts; the timestamp chosen by the timestamp rule from the Date header and `internalDate`, and no `internalDate` when a Date header exists |
| Normalize.EmptyMessageEvent | src/nerve_source_gmail/source.py:160-221 | A message with no payload, no labels and no `internalDate` becomes a received event titled "(no subject)". It carries the snippet, uses the processing time and has no attachments |
| Sync.HistoryError | src/nerve_source_gmail/source.py:260-265 | A 404 becomes the history-expired error, and any other status is raised again unchanged |
| Sync.EventFor | src/nerve_source_gmail/source.py:152-158 | A message yields an event exactly when its fetch succeeds, and the event carries the fetched id |
| Sync.FetchMessage | src/nerve_source_gmail/source.py:152-221 | A failed fetch gives its status. Otherwise the result is the conversion of the fetched message |
| Sync.FetchListed | src/nerve_source_gmail/source.py:139-146 | The loop over the listed ids yields the present events of the listing |
| Sync.Harvest | src/nerve_source_gmail/source.py:139-146 | The listing yields at most one event per listed id, and every event carries a listed id |
| Sync.HarvestInOrder | src/nerve_source_gmail/source.py:139-146 | The listing yields events for a subsequence of the listed ids, in listing order. Exactly the ids whose fetch succeeds are included, each as the conversion of its message |
| Sync.HarvestAllFetched | src/nerve_source_gmail/source.py:139-146 | When every fetch succeeds, there is one event per listed id, in listing order |
| Sync.HarvestNoneFetched | src/nerve_source_gmail/source.py:139-146 | When every fetch fails, nothing is yielded |
| Sync.CollectAddedIds | src/nerve_source_gmail/source.py:244-248 | The nested loops collect the ids of the messages added in the history records |
| Sync.AddedIds | src/nerve_source_gmail/source.py:244-248 | Every id a history record lists as added is collected |
| Sync.AddedIdsMembers | src/nerve_source_gmail/source.py:244-248 | An id is collected exactly when some history record lists it as added |
| Sync.DeletionsIgnored | src/nerve_source_gmail/source.py:239-248 | Two histories with the same added messages collect the same ids, whatever they delete |
| Sync.DeletedOnlyRecord | src/nerve_source_gmail/source.py:246-248 | A record that only deletes adds no id |
| Sync.FetchEach | src/nerve_source_gmail/source.py:252-258 | The loop over the collected set yields one event for each collected id whose fetch succeeds and no other. No id is yielded twice, and each event is the conversion of its message |
| Sync.SyncFromHistory | src/nerve_source_gmail/source.py:242-258 | After a successful history listing, the events are those of the ids added in it |
| Sync.NothingAddedNothingFetched | src/nerve_source_gmail/source.py:244-258 | A history with deletions only yields no events |
| Sync.GmailSource.constructor | src/nerve_source_gmail/source.py:90-92 | A new source has an empty service cache and has authorized no user |
| Sync.GmailSource.GetService | src/nerve_source_gmail/source.py:94-100 | The handle returned is the one authorization builds for the user. Authorization runs only on a cache miss: a cached user leaves the cache and the log of authorizations unchanged, and a new user is added to the cache and appended to the log once. Every cached handle stays the one built for its user, and each cached user has been authorized exactly once |
| Sync.GmailSource.FetchEvents | src/nerve_source_gmail/source.py:102-150 | A listing error is raised with its status. Otherwise the result is the listing's events for the query built from `since`. The cache gains the user, who is authorized only if not cached before |
| Sync.GmailSource.SyncIncremental | src/nerve_source_gmail/source.py:223-265 | A history error is mapped through the 404 rule. Otherwise each message added in the history is fetched, as `Sync.FetchEach` states. The cache gains the user, who is authorized only if not cached before |

## Left out

- Network, credentials and `build(...)`: `src/nerve_source_gmail/auth.py` is not part of this model. `Sync.GmailSource.GetService` takes authorization as a given total function, so a failure to obtain credentials is not modelled.
- `src/nerve_source_gmail/cli.py` is not part of this model. This includes its polling loop and the watermark filter `event.timestamp > last_check`, which depends on the wall clock.
- UTF-8 decoding with replacement, `parsedate_to_datetime`, `int(...)` with `datetime.fromtimestamp`, and `datetime.now()` are library and clock calls. The model takes the first three as parameters. It records the processing time only as the `ProcessingTime` tag and never reads a clock.
- Normalize.ResolveTimestamp: the timezone handling and the value of the parsed datetime are left to the library; only which source is chosen is modelled.
- Headers.GetHeader: `str.lower()` is modelled for ASCII letters only. Unicode case mapping is not modelled.
- Headers.ParseEmailAddresses: Python's `\w` is modelled as ASCII letters, digits and `_`. Non-ASCII word characters are treated as separators.
- Sync.BuildQuery: Python's `\d` is modelled as the ASCII digits only.
- Sync.GmailSource.FetchEvents: `maxResults` is passed through to the listing call, and the truncation of the listing is left to the API. Only the first page is modelled, as the source reads only the first page.
- Sync.FetchEach: the iteration order of a Python set is not modelled. The contract fixes which events are yielded, not their order.
- Generators are modelled as whole sequences. Laziness, and an error raised after some events were already yielded, are not modelled.
- Logging calls are left out.
- Exceptions other than `HttpError` are not modelled. The conversion in the model is total, and the test `if event:` is therefore always true.
- The `NerveSource` and `NerveEvent` base classes from `insilica_nerve` are not part of this model. The event is a plain record with the fields the source fills in.
