# Notices extractor, store and diagnostics — a Dafny model

This project models the core of a small service that reads a school portal's
announcement feed. The model covers four parts:

- **Extractor.** It turns the portal's HTML response into one notice record per
  `div.post_notice` card. Each record has a title, a date, a description and
  download links.
- **Store.** It keeps the records in an SQLite table whose key is
  `UNIQUE(date, title)`, using `INSERT OR IGNORE`.
- **Persist gate.** The `/api/notices` handler decides whether to persist.
- **Diagnostics.** These are the helpers of the `/api/notices_debug` endpoint:
  - login-page detection;
  - a title-only parse;
  - the session's cookie names;
  - the response snippet;
  - the hint;
  - the order of the GET and POST attempts.

The files are:

- `strings.dfy` (`Strings`): the Python string operations the code relies on.
  - `str.isspace` and `strip`;
  - `lstrip('#')` and `startswith`;
  - the substring test `in`;
  - `lower`, `sep.join` and `<` on `str`.
- `dom.dfy` (`Dom`): the already-parsed document, as a tree of elements and text
  leaves. It has BeautifulSoup's `find_all`, `find` and `get_text(strip=True)`.
  These search the descendants of a node in preorder, and the node itself is
  not searched. The parser gives every string parsed while a string
  container (`script`, `style`, `template`, `rt`, `rp`) is open, at any
  depth, a class of its own (`Script`, `Stylesheet`, `TemplateString` and
  the ruby strings). Each text leaf records whether it is such a `contained`
  string, and `ParsedIn` states the parser's rule. `get_text` on a div reads
  only the plain strings, so a div that sits inside a `template` has the
  text "". That is the behaviour from version 4.9 on, with `rt` and `rp`
  from 4.10 on.
- `notices.dfy` (`Notices`): `parse_notices` of `api/notices.py`. It is
  specified card by card by `NoticeOf` and implemented as the source's loops.
  These are `ParseNotices`, `CardNotice`, `Description` and `DownloadLinks`.
- `store.dfy` (`NoticeStore`): the `notices` table and the connection.
  - The table is a map from `(date, title)` to the remaining columns.
  - The connection is a class holding the table and SQLite's `total_changes`
    counter. Its methods are `InitDb` and `SaveNotices`.
  - It also holds the handler's gating (`HandleNotices`).
- `debug.dfy` (`NoticesDebug`): the helpers of `api/notices_debug.py`.

Several things outside the code become parameters of the model:

- `urljoin` becomes a function parameter `resolve`.
- The clock read for each record's `fetched_at` becomes `clock(k)`, read for the
  k-th record.
- A request's outcome is given to the model as a value:
  - a `Fetch` for the debug endpoint;
  - the stored table, or its absence, for the store.

Two points where the model follows the code exactly:

- **The store's return value.** `save_notices` returns the connection's
  cumulative `total_changes`, as the code does. A per-call count would be the
  cleaner contract, but it is not what the code computes.
  - `SaveNotices` states the cumulative value: the counter before the call plus
    the number of new keys.
  - `HandleNotices` shows what the client sees. The handler opens a fresh
    connection per request, so `inserted_rows_estimate` is exactly the number
    of rows that request inserted.
- **An empty id.** BeautifulSoup's `find("div", id="")` matches a div that has
  no `id` attribute, and also a div whose `id` is the empty string. This is the
  attribute matcher of BeautifulSoup before version 4.13: in
  `SoupStrainer._matches` an absent attribute matches any falsy filter value.
  `IdMatches` models this. A trigger whose href is just `"#"` therefore
  resolves to the first div with no id or an empty one.

## Model

| member | source | states |
|---|---|---|
| Strings.Strip | api/notices.py:67-68 | `strip()` removes exactly the surrounding whitespace. The result is a contiguous piece of the text with only whitespace before and after it. It is empty iff the text is all whitespace. Otherwise it neither begins nor ends with whitespace. |
| Strings.LStrip | api/notices.py:73 | `lstrip('#')` removes a prefix made only of '#'. What remains is a suffix of the input that does not begin with '#'. |
| Strings.Lower | api/notices.py:154 | `str.lower` on the ASCII letters: the same length, each character lowered on its own, A-Z mapped to a-z and every other character kept. |
| Strings.JoinEnds | api/notices.py:79 | Joining non-empty pieces gives a text that begins with the first piece's first character and ends with the last piece's last character. |
| Strings.LessTransitive | api/notices_debug.py:75 | Python's `<` on str, which `sorted` uses, is transitive. |
| Strings.LessTotal | api/notices_debug.py:75 | Of two different strings, one is less than the other. |
| Dom.Select | api/notices.py:63 | A filter keeps exactly the elements that satisfy the query, and no more of them than there were. |
| Dom.SelectKeepsOrder | api/notices.py:63 | A filter's result is a subsequence of its input: the kept elements stay in their original order. |
| Dom.SelectKeepsCount | api/notices.py:63 | A filter keeps each satisfying element as many times as it occurs, and drops every other element. |
| Dom.FindAllMatches | api/notices.py:63 | `find_all` returns exactly the descendants that match, in document order, each as often as it occurs. |
| Dom.Find | api/notices.py:71 | A node that `find` returns is a matching descendant. |
| Dom.FindNone | api/notices.py:71-72 | `find` returns nothing iff no descendant matches. |
| Dom.FindIsFirst | api/notices.py:74 | `find` returns the first matching descendant in document order. |
| Dom.ReadTexts | api/notices.py:67-68 | A string is read by `get_text` iff it is a plain (not contained) text leaf below the node. |
| Dom.ParsedLeaves | api/notices.py:67-68 | Below a node parsed inside a string container every string is contained. Below a node parsed outside one, with no container at or below it, no string is. |
| Dom.InsideContainerReadsNothing | api/notices.py:67-68 | A node parsed inside a string container, such as a card or a modal div inside a `template`, reads no string and has the text "". |
| Dom.ReadsEveryStringOutsideContainers | api/notices.py:67-68 | A node parsed outside every container, with no container at or below it, reads every text leaf below it. |
| Dom.ContainerStringsAreSkipped | api/notices.py:67-68 | An element parsed outside any container, holding a string container (such as a `script`) and then a string, reads only that string, so its text is that string stripped. |
| Dom.GetText | api/notices.py:67-68 | `get_text(strip=True)` is empty iff every string it reads is whitespace. Otherwise it neither begins nor ends with whitespace. |
| Notices.Dedup | api/notices.py:86-87 | The appended links have the same members as the candidates, no duplicates, and no more elements. |
| Notices.DedupKeepsFirstOccurrenceOrder | api/notices.py:86-87 | Kept links appear in the order of their first occurrence among the candidates. |
| Notices.DedupSnoc | api/notices.py:86-87 | One more candidate is appended iff it is not yet in the list. |
| Notices.ModalId | api/notices.py:73 | The modal id is the href with its leading '#' removed: a suffix that does not start with '#'. |
| Notices.ModalIdStripsAllHashes | api/notices.py:73 | Any number of leading '#' are removed, e.g. `"##x"` gives `"x"`. |
| Notices.LinkOf | api/notices.py:83-85 | A download box gives at most one link. |
| Notices.Candidates | api/notices.py:82-85 | Every candidate link comes from some box's first anchor, and every box's link is a candidate. |
| Notices.BuildAllAt | api/notices.py:65-95 | A build over the cards gives one element per card, and the k-th comes from the k-th card. |
| Notices.NoticesOfAt | api/notices.py:65-95 | There is one record per card, in card order. The k-th record is that card's record, stamped with the k-th clock reading. |
| Notices.ParseNotices | api/notices.py:61-96 | The loop over the `post_notice` cards returns the records of the cards, in document order. |
| Notices.CardNotice | api/notices.py:66-95 | One iteration builds the record the specification gives for that card. |
| Notices.Description | api/notices.py:70-79 | The nested lookups compute the specified description. |
| Notices.DownloadLinks | api/notices.py:81-87 | The loop over download boxes computes the deduplicated candidate links. |
| Notices.NoCardsNoNotices | api/notices.py:63-65 | There are no records iff the document has no `post_notice` div. |
| Notices.OnlyFirstTwoInfoDivsMatter | api/notices.py:66-68 | Title and date depend only on the first two `AdmsnTxt` divs. |
| Notices.TitleAndDateSentinels | api/notices.py:66-68 | Missing info divs give "No Title Found" or "No Date Found". A present all-whitespace div gives "", not the sentinel. |
| Notices.DescriptionResolution | api/notices.py:70-79 | The description is "No Description Found" unless the trigger, the '#', the div with that id and its `modal-content` all exist. When they do, it is the text of the first inner div, or of `modal-content` when there is no inner div. |
| Notices.ModalLookupIsFirstDivWithId | api/notices.py:74 | The modal is the first div of the whole document with that id, wherever it is. |
| Notices.DownloadLinksProperties | api/notices.py:81-87 | The links have these properties: no duplicates; at most one per box; each is the resolved href of some box; every such href is present; first-occurrence order. |
| Notices.SameUrlTwiceGivesOneLink | api/notices.py:86-87 | Two boxes resolving to the same URL give a single link. |
| NoticeStore.InsertOrIgnore | api/notices.py:116-118 | `INSERT OR IGNORE` adds the key and leaves existing rows unchanged. A new key gets the record's row. |
| NoticeStore.InsertOrIgnoreCount | api/notices.py:116-118 | A row is added iff the key is new. |
| NoticeStore.InsertAllKeys | api/notices.py:120-127 | After a batch, the table's keys are exactly the old keys plus the batch's keys. |
| NoticeStore.InsertAllKeepsExisting | api/notices.py:116-127 | Rows already present are never modified. |
| NoticeStore.InsertAllFirstWins | api/notices.py:116-127 | Within a batch, the first record with a new key is the one stored. |
| NoticeStore.InsertAllPresent | api/notices.py:116-127 | A batch whose keys are all present changes nothing. |
| NoticeStore.SaveTwiceIsSaveOnce | api/notices.py:114-128 | Saving the same batch twice leaves the table as saving it once. |
| NoticeStore.InsertAllCount | api/notices.py:114-130 | A batch adds one row per batch key not already in the table. |
| NoticeStore.Connection.Open | api/notices.py:160 | `sqlite3.connect` gives a connection over the stored table whose `total_changes` starts at 0. |
| NoticeStore.Connection.InitDb | api/notices.py:99-111 | `CREATE TABLE IF NOT EXISTS`: an existing table is kept as it is, a missing one is created empty, and the counter is untouched. |
| NoticeStore.Connection.SaveNotices | api/notices.py:114-130 | The table becomes the batch's inserts applied in order. The returned cumulative counter grows by the number of new keys. |
| NoticeStore.PersistRequested | api/notices.py:154 | An absent `persist` parameter never requests persisting. A value that does has length 1, 3 or 4, the lengths of "1", "yes" and "true". |
| NoticeStore.HandleNotices | api/notices.py:150-178 | No records gives the "no notices" answer and no write. Without persist the estimate is 0 and nothing is written. With persist the table gets the inserts, and the estimate is the number of new keys. |
| NoticeStore.PersistFlagValues | api/notices.py:154 | For every value, persisting is requested iff the lower-cased value is "1", "true" or "yes". The answer does not depend on case. A value with whitespace at either end never requests it, and an absent flag does not. |
| NoticesDebug.MatchesIn | api/notices_debug.py:58 | The matches are the keywords that occur in the text, in keyword-list order. |
| NoticesDebug.DetectLoginLike | api/notices_debug.py:51-59 | `login_like` holds iff there is a match. The matches are the keywords found in the lower-cased HTML, in list order. |
| NoticesDebug.FormIsLoginLike | api/notices_debug.py:52-59 | A response containing "<form" in any case is login-like. |
| NoticesDebug.NothingMatchesEmpty | api/notices_debug.py:58 | No non-empty keyword occurs in the empty text. |
| NoticesDebug.EmptyIsNotLoginLike | api/notices_debug.py:51-59 | The empty response matches nothing and is not login-like. |
| NoticesDebug.DetectionIgnoresCase | api/notices_debug.py:52 | Lower-casing the response first changes nothing. |
| NoticesDebug.DebugTitlesBound | api/notices_debug.py:62-71 | The kept titles are non-empty, and there are no more of them than cards. |
| NoticesDebug.DebugTitlesSubsequence | api/notices_debug.py:62-71 | In card order, the kept titles are titles the main extractor gives those cards. |
| NoticesDebug.DebugTitlesMembers | api/notices_debug.py:66-70 | A title is kept iff some card has an info div with that non-empty title. |
| NoticesDebug.DebugTitlesAppend | api/notices_debug.py:66-70 | The titles of two runs of cards are the titles of each, concatenated. |
| NoticesDebug.DebugParseNotices | api/notices_debug.py:62-71 | The loop's count is the number of cards, and its titles are the specified kept titles. |
| NoticesDebug.InsertSorted | api/notices_debug.py:75 | Inserting into a strictly sorted list keeps it strictly sorted and adds exactly the new name. |
| NoticesDebug.CookieNames | api/notices_debug.py:74-75 | The cookie names are strictly sorted, and their members are exactly the jar's cookie names. |
| NoticesDebug.SortedListingIsUnique | api/notices_debug.py:75 | Two strictly sorted lists with the same members are equal, so the result is the one sorted listing of the set. |
| NoticesDebug.CookieNamesDistinct | api/notices_debug.py:75 | The cookie names have no duplicates. |
| NoticesDebug.PrefixUpTo | api/notices_debug.py:119 | `text[:n]` is a prefix of the text. A non-negative `n` keeps `min(n, len)` characters. A negative `n` drops the last `-n` characters, or all of them when `-n` exceeds the length. |
| NoticesDebug.Snippet | api/notices_debug.py:119 | A text no longer than N, or empty, is returned unchanged. Otherwise, for N ≥ 0, the snippet is the first N characters followed by "...". |
| NoticesDebug.HintFor | api/notices_debug.py:125-130 | There is no hint when cards were found. The login hint applies iff there are no cards and the page is login-like. The "no nodes" hint applies iff there are no cards, the page is not login-like and the status is 200. |
| NoticesDebug.AttemptMethods | api/notices_debug.py:136-139 | The attempts are a subsequence of GET, POST, in that order. |
| NoticesDebug.AttemptMethodsCases | api/notices_debug.py:84-139 | For every value: no parameter, or one that lower-cases to "both", gives GET then POST. One that lower-cases to "get" gives GET only, and "post" gives POST only. Any other value gives nothing. The answer does not depend on case. |
| NoticesDebug.RunAttempt | api/notices_debug.py:104-133 | A request error gives the error entry. Otherwise the entry has the response's status, reason, length, session cookie names, snippet, login detection, title-only parse and hint. |
| NoticesDebug.DebugHandler | api/notices_debug.py:84-146 | A failed prime is recorded first. Then comes one attempt per requested method, GET before POST, each described from its own request's outcome. The snippet length defaults to 4000. |

## Left out

- Network I/O. The model leaves out the HTTP requests, headers, timeouts and session priming. Each request's outcome is a parameter (`Fetch`, `send`). A failed prime is one whose request raised an error.
- Flask. Routing, `jsonify`, the status codes and the JSON wrapper fields (`note`, `message`, `error`) are left out.
- Environment variables. The `COOKIE` check, `DB_PATH` and `PORT` are configuration and are not modelled.
- HTML tokenisation. The document is given already parsed, as a `Node` tree, and a debug response carries its tree.
- Element attributes. Only the attributes the code reads are modelled: class, id and href.
- `urljoin` is the uninterpreted parameter `resolve`. The deduplication and order properties hold for any resolver. `resolve` is total, but `urljoin` can raise `ValueError` on a malformed href such as `//[x` (api/notices.py:85), which the model does not capture.
- The clock is the parameter `clock`. Nothing is assumed about how readings relate to one another.
- The `id` column and its AUTOINCREMENT values are not modelled, and neither is the JSON encoding of `download_links`. The stored row keeps the list itself.
- SQLite file I/O, `os.makedirs` and opening and closing the connection are left out. So are the `except` paths, including the "Failed to persist to DB" answer.
- Concurrency is left out, including writers racing on the same database file.
- `str.lower` is modelled on ASCII letters only, which gives the same answers for every comparison the code makes. Python lowers only two non-ASCII characters to ASCII. U+0130 becomes "i" followed by a combining dot, and U+212A becomes "k". No keyword, persist value or method name contains "k" or that combining dot. A keyword ending in "i" could match at the "i" of U+0130, but no keyword ends in "i". So neither character can make or break a match.
- Comments, CDATA sections, processing instructions and the doctype are not represented in the `Node` tree. `get_text` does not read them.
- Dom.GetText: `get_text` called on a string container itself (which would read that container's own strings) is not modelled. The extractor only calls it on divs.
- The `int(...)` parse of `snippet_chars` is left out. The endpoint's exception for a non-numeric value is outside the model, and the parameter arrives as an integer.
- NoticeStore.Connection.SaveNotices requires that the table exists. In the code `init_db` always runs first.
