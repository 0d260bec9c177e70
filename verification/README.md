# FOM-OC parser core in Dafny

This project models the parsing core of FOM-OC, a poller for the "OC-Campus" student portal. The core lives in `parse.go` and has two paths.

- **Blackboard.** The list items of the blackboard become `blackBoardMsg` records, which are appended to a global message queue. A message's short abstract is replaced by the text of its linked detail page whenever that text is non-empty.
- **Notifications.** The rows of the notification table are scanned for the phrase "Ihre Videokonferenz startet in Kuerze um". The page linked from each matching row is fetched, and every line of its fieldset that matches the link pattern `^http|https+://*$` is handed to the delivery function, together with the row's text minus its first character.

The HTML document, goquery and HTTP are abstracted.

- A parsed selection is a sequence of records: table rows are sequences of `Cell`s; list items are `ListItem`s; detail paragraphs are `Paragraph`s with an `:empty` flag; fieldset children are `FieldsetNode`s.
- The network is the function `Portal.fetch`, which maps a relative link to a `Page`: its status, its `#content` paragraphs and its fieldset nodes.
- The global message queue is a `seq<Message>` that goes in and comes out.
- The calls to the delivery function are returned as a sequence of `Delivery` records.

Modules:

- `Strings` (strings.dfy): `strings.Contains` and `strings.Replace` with an empty replacement, over character sequences. `HasPrefix`, `Count` and `Strip` are helpers of the model; `parse.go` does not call `strings.HasPrefix`.
- `Dom` (dom.dfy): the abstract document and network records, and the `Portal` collaborators.
- `Detail` (detail.dfy): `parseMessageBodyFromRef`.
- `Blackboard` (blackboard.dfy): `blackBoardMsg`, `parseMessageHTML`, `parseBlackBoardData`.
- `LinkPattern` (linkpattern.dfy): the regular expression. It is an explicit decision procedure, proved equal to the meaning of the expression.
- `Notifications` (notifications.dfy): `parsePrivateMessagesSection`, `parseNotification`.

## Model

| member | source | states |
|---|---|---|
| Strings.ContainsIff | parse.go:40-46 | `Contains(s, sub)` holds exactly when `sub` occupies some position of `s`, which is the meaning of `strings.Contains` |
| Strings.ContainsIsLongEnough | parse.go:46-47 | a text that contains the phrase is at least as long as the phrase, so the subject of an announcing row is never empty |
| Strings.RemoveFirst | parse.go:188 | `strings.Replace(s, "\n", "", n)` deletes `min(n, k)` newlines out of the `k` present, keeps every other character in order, and shortens `s` by exactly that many characters |
| Strings.RemoveFirstSplits | parse.go:188 | the newlines deleted are the first ones, wherever they are: the result is a prefix holding the first `min(n, k)` newlines with those newlines removed, followed by the untouched rest |
| Detail.DetailText | parse.go:155-190 | a page whose status is not 200 yields ""; otherwise the body has the same non-newline characters, in the same order, as the contributing paragraphs each followed by a newline, and it has `min(4, k)` fewer newlines |
| Detail.BuildDetailText | parse.go:173-189 | the paragraph walk as written (skip `:empty`, skip text containing "Übersicht", append text and a newline, then delete the first four newlines) yields exactly `DetailText` |
| Detail.KeptTextsAppend | parse.go:176-184 | the paragraph filter distributes over concatenation, so the kept texts keep document order |
| Detail.KeptTextsMembers | parse.go:177-182 | a text is kept if and only if some paragraph carrying it is non-empty and does not contain "Übersicht" |
| Detail.LinesNewlines | parse.go:182 | each kept paragraph adds its own newline, so the accumulated text holds at least one newline per kept paragraph |
| Detail.DetailTextEmptyIff | parse.go:173-189 | the body is "" if and only if the status is not 200, or the accumulated text has no character besides at most four newlines |
| Detail.ManyParagraphsEnrich | parse.go:182-188 | more than four kept paragraphs always give a non-empty body |
| Detail.CleanupDeletesFirstNewlines | parse.go:187-188 | after a 200 response, the body is the accumulated text with its first `min(4, k)` newlines deleted wherever they occur, and everything after them untouched |
| Detail.ParagraphsRunTogether | parse.go:182-188 | the paragraphs "a" and "b" give the body "ab", because the deleted newlines are the separators and not leading blank lines |
| Blackboard.ParseMessage | parse.go:123-153 | an `:empty` item leaves the queue unchanged; any other item appends exactly one message at the end and leaves every earlier entry as it was |
| Blackboard.MessageFields | parse.go:128-148 | title and date are the `.titel` and `.date` texts; the link is the anchor's href, or "" without one; the body is the detail text when that is non-empty, otherwise the repaired abstract |
| Blackboard.FailedFetchKeepsAbstract | parse.go:137-141 | when the detail page's status is not 200, the body is `replaceUmlauts` of the abstract |
| Blackboard.EnrichedIff | parse.go:137-141 | the body is the enriched text exactly when the detail page answered 200 and its accumulated text has a non-newline character or more than four newlines; otherwise it is the repaired abstract |
| Blackboard.ParseItemsAppends | parse.go:109-117 | walking a run of items appends exactly one message per non-empty item, in item order, after the untouched queue |
| Blackboard.MessagesAppend | parse.go:109-117 | the messages of two item runs are the first run's messages followed by the second's |
| Blackboard.ParseBlackBoardData | parse.go:97-121 | nothing is appended unless the status is 200 and the document parsed; otherwise the `#cell_blackboardtype1` messages come before the `#cell_mPrio` messages, each group in document order |
| LinkPattern.EndsWithSecureRootIff | parse.go:86 | scanning from the end of the text (a run of '/', then ':', then a run of 's', then "http") succeeds exactly when some suffix is a word of `https+://*` |
| LinkPattern.MatchesIff | parse.go:86-87 | the predicate used for forwarding holds exactly when the text starts with "http" or ends with "http", one or more 's', ":/" and any further '/' |
| LinkPattern.EmbeddedLinkIsNotMatched | parse.go:86-87 | a sentence that merely contains a link ("Link: http://x") is not forwarded, because the first alternative is anchored at the start |
| Notifications.ScanRow | parse.go:35-53 | the date flag starts true and is never cleared, so a row raises one notification if and only if its cell 5 contains the phrase; the date cell and today's date play no part; the notification carries the cell text and the anchor href, or "" without one |
| Notifications.ForwardLines | parse.go:84-92 | every line forwarded matches the link pattern and carries the given subject; every matching non-`<br>` node is forwarded; no more lines are forwarded than there are nodes |
| Notifications.ForwardLinesAppend | parse.go:84-92 | the lines forwarded for two runs of nodes are the first run's followed by the second's, so lines go out in document order and nothing is de-duplicated |
| Notifications.ForwardLinesSingle | parse.go:85-89 | one node is sent exactly once when it is not a `<br>` and its text matches the pattern, and not at all otherwise; with `ForwardLinesAppend` this fixes the forwarded sequence of every node run |
| Notifications.RepeatedLineSentTwice | parse.go:84-90 | a page carrying the same link line twice forwards it twice |
| Notifications.ForwardLinesMembers | parse.go:84-91 | a delivery is produced if and only if some non-`<br>` fieldset node's text is its link, that text matches the pattern, and the delivery carries the given subject |
| Notifications.ParseNotification | parse.go:59-95 | a status other than 200 forwards nothing; after a 200 the page's fieldset lines are forwarded in document order, one delivery per matching non-`<br>` node (as `ForwardLines`), every such node is delivered, every delivery's link matches the pattern, and its subject is the original subject with its first character removed |
| Notifications.TableDeliveriesAppend | parse.go:35-55 | the deliveries for two runs of rows are the first run's followed by the second's; a repeated table is delivered twice, because nothing records what was sent |
| Notifications.ParsePrivateMessagesSection | parse.go:24-57 | an unparsable table sends nothing; otherwise the rows are scanned in order and each announcing row is followed up in place, which gives exactly the table's deliveries |
| Notifications.DeliveriesSound | parse.go:35-53 | every delivery comes from an announcing row: its link is a matching non-`<br>` line of that row's page, the page answered 200, and the delivery's subject is the row's cell 5 text minus its first character |
| Notifications.DeliveriesComplete | parse.go:44-50 | every matching non-`<br>` line on the 200 page of an announcing row is delivered, with that row's cell 5 text minus its first character |

## Behaviour of parse.go worth noting

- A paragraph is skipped whenever its text contains "Übersicht" anywhere (parse.go:179).
- The cleanup deletes the first four newlines of the accumulated text wherever they are, so the separators between the first paragraphs are lost (`Detail.ParagraphsRunTogether`; parse.go:188).
- The date flag of `parsePrivateMessagesSection` starts true and is only ever set to true, so the date cell never excludes a row (parse.go:36-41).
- Nothing records what was already sent: a row or a link line seen twice is delivered twice (`Notifications.TableDeliveriesAppend`, `Notifications.RepeatedLineSentTwice`).
- The subject passed on is the raw cell text minus its first character (parse.go:47, 89).
- The detail page is fetched even when the item has no anchor, with the link "" (parse.go:131-138).
- The alternation of the link pattern binds loosest: a line matches when it starts with "http", or when it ends with "http", one or more 's', ':' and one or more '/' (parse.go:86).

## Left out

- HTTP request construction, `client.Do`, headers and reading the body (parse.go:60-74, 158-171) are network I/O. They are replaced by `Portal.fetch`, keyed by the relative link; the endpoint prefix is not part of this model.
- The `log.Fatal` exits (parse.go:68-70, 161-163), the nil-response dereference after a failed request (parse.go:167-171), the nil-request dereference when `http.NewRequest` fails, for example on a link with a malformed `%` escape (parse.go:63-64), and the nil-document dereference when the detail body cannot be read, for example after a connection reset, because the error of `goquery.NewDocumentFromReader` is discarded (parse.go:174-176), end the process, so they are not modelled. The model's `Portal.fetch` answers every link.
- In `parseNotification` a failed body read (parse.go:74-77) is only logged, and the document is then parsed from a string reader that cannot fail (parse.go:79-81). The model's page there is whatever content was read. In `parseMessageBodyFromRef` a failed read is the panic listed above; `Detail.DetailText` gives a body for every `Page`.
- goquery parsing and selectors are a foreign library. Selections arrive as sequences of records in document order; nested matches (a `tr` inside a `tr`, for example) are not modelled.
- `html.UnescapeString` and the document-level `replaceUmlauts` (parse.go:27-28, 79-80, 99-100) run before parsing, so they are part of the abstract input. The item-level `replaceUmlauts` (parse.go:137) is the uninterpreted `Portal.replaceUmlauts`; its definition is in a file that is not part of this model.
- `time.Now().Format` (parse.go:39) is the parameter `today` of `ScanRow`. It has no effect.
- `fmt` and `log` output are left out. `sendCourseNotification` is external and appears only as the returned `Delivery` records.
- Notifications.ParseNotification: requires a non-empty subject. Go's `subject[1:]` fails only when a line actually matches, and the only caller passes a text that contains the phrase (`Strings.ContainsIsLongEnough`).
- Notifications.ParseNotification: strings are sequences of characters. Go's `subject[1:]` drops the first byte, so the two agree when the first character is ASCII. The same holds for `strings.Contains`, which agrees on valid UTF-8.
