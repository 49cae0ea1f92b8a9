# gosearch, modelled in Dafny

gosearch is a small web reconnaissance tool. Given a base URL and a word
list, it loads the list (one word per line), requests `base/word` for every
word, and keeps the URLs that answer 200 without being redirected elsewhere.
Then, on each confirmed page, it reports the forms whose action lies under
the base URL. For each such form it reports whether it posts and, for a
POST form, how it submits its data, then its input fields and buttons. It also reports the
links under the base URL that carry a query string.

This project models the decisions of that program. The file system, the
HTTP client and the HTML parser become inputs:

- `outcomes.dfy` (module `Outcomes`): `Option` for attributes that may be
  absent, `Result` for Go's `(value, err)` returns.
- `text.dfy` (module `Text`): the ASCII behaviour of `strings.TrimSpace`,
  `strings.Split(s, "\n")`, `strings.ToUpper` and `strings.ToLower`.
  `strings.HasPrefix` is Dafny's prefix test `<=` and `strings.Contains`
  with one character is `in`.
- `selection.dfy` (module `Selection`): an order-preserving "keep and map"
  over a sequence, with `Origin` giving the position each kept value comes
  from. Both appending loops of the program compute such a selection.
- `wordlist.dfy` (module `Wordlist`): `loadWordlist`. The method
  `LoadWordlist` runs the loop over the lines and is proved equal to the
  function `Words`, the trimmed non-empty lines in order.
- `directories.dfy` (module `Directories`): `getDirectories`. The HTTP
  client is an oracle `fetch: string -> Reply`. A reply is a transport error
  or the final URL after redirects together with the status. The method
  `GetDirectories` runs the loop with its early return. It also returns the
  URLs it handed to the client, so that "nothing is requested after the
  first failure" can be stated.
- `inputareas.dfy` (module `InputAreas`): `findUserInputAreas`. A page is a
  fetch error, a parse error, or a document of forms and links. The console
  output is a sequence of `Event`s.

Two behaviours of the code are worth stating, since a reader might expect otherwise:

- A word-list file that is empty or holds only blank lines loads
  successfully as an empty list. The code does not reject it
  (gosearch/gosearch.go:59-66).
- A directory is confirmed only on status exactly 200 (`http.StatusOK`),
  not on any success status (gosearch/gosearch.go:80).

## Model

| member | source | states |
|---|---|---|
| `Text.Trim` | gosearch/gosearch.go:61 | the result neither starts nor ends with white space, only white space is cut from either end of the line, and the result is empty exactly when the line is all white space |
| `Text.TrimUnique` | gosearch/gosearch.go:61 | any infix that is trimmed and has only white space around it is `Trim`'s result, so the contract determines the trimmed word |
| `Text.TrimIgnoresTrailingSpace` | gosearch/gosearch.go:58-61 | a trailing white-space character, such as the carriage return of a CRLF line, does not change the trimmed text |
| `Text.TrimInfix` | gosearch/gosearch.go:61 | trimming introduces no character that was not in the line |
| `Text.Lines` | gosearch/gosearch.go:58 | splitting on "\n" gives one piece more than there are line feeds, and no piece contains a line feed |
| `Text.JoinLines` | gosearch/gosearch.go:58 | joining the pieces with "\n" gives back the text, so nothing is lost by the split |
| `Text.LinesJoin` | gosearch/gosearch.go:58 | splitting a join of line-feed-free pieces gives the pieces back |
| `Text.ToUpper` | gosearch/gosearch.go:112 | upper-casing keeps the length and maps each ASCII letter to upper case, leaving other characters alone |
| `Text.ToLower` | gosearch/gosearch.go:115 | lower-casing keeps the length and maps each ASCII letter to lower case, leaving other characters alone |
| `Text.ToLowerFold` | gosearch/gosearch.go:115 | two strings lower-case to the same text exactly when they are equal up to ASCII letter case |
| `Wordlist.HasWord` | gosearch/gosearch.go:61-62 | a line yields a word exactly when some character of it is not white space |
| `Wordlist.Words` | gosearch/gosearch.go:58-65 | the word list of file contents has at most one word per line; `WordsAreTrimmed`, `WordsExactly` and `WordCount` characterise it fully |
| `Wordlist.LoadWordlist` | gosearch/gosearch.go:53-67 | a read error is returned unchanged; otherwise the result is the word list `Words` of the file contents |
| `Wordlist.WordsAreTrimmed` | gosearch/gosearch.go:60-65 | every word is non-empty, has no white space at either end and contains no line feed |
| `Wordlist.WordsExactly` | gosearch/gosearch.go:58-65 | the k-th word is the trimmed line `LineOf(k)`; these line numbers increase with k; every line that trims to something non-empty is one of them |
| `Wordlist.LineOf` | gosearch/gosearch.go:60-64 | the line a word comes from exists and trims to a non-empty word |
| `Wordlist.WordCount` | gosearch/gosearch.go:58-65 | there are at most as many words as line feeds plus one |
| `Wordlist.CarriageReturnIgnored` | gosearch/gosearch.go:58-61 | adding a carriage return to the end of any lines of a file, some or all of them, with or without a final line feed, leaves its word list unchanged |
| `Wordlist.CarriageReturnExample` | gosearch/gosearch.go:58-61 | the CRLF file "a\r\nb\r\n" gives the same word list as "a\nb\n" |
| `Directories.Url` | gosearch/gosearch.go:72 | the probed URL is the base URL, a slash, then the word |
| `Directories.Confirms` | gosearch/gosearch.go:80 | a reply confirms a URL only if it is a response, never a transport error; `DirectoriesExactly` states which responses do: those that end at that same URL with status exactly 200 |
| `Directories.Urls` | gosearch/gosearch.go:71-73 | the URLs requested for a word list are, position by position, the words' URLs |
| `Directories.FirstFailure` | gosearch/gosearch.go:71-76 | the position of the first word whose request fails in transport: every earlier request went through, and it failed (or it is the list's length when none fails) |
| `Directories.ProbeOutcome` | gosearch/gosearch.go:69-88 | a successful probe lists at most one URL per word, and an empty word list never fails; `FailsIffSomeRequestFails` and `DirectoriesExactly` state when it fails, with which error, and which URLs a success lists |
| `Directories.Probed` | gosearch/gosearch.go:71-76 | the number of requests made: at least one for a non-empty list, every request but the last went through, and when it stops short of the list's end the last one failed in transport |
| `Directories.GetDirectories` | gosearch/gosearch.go:69-88 | the result is `ProbeOutcome`: the first transport error, or the confirmed URLs in word-list order; the URLs requested are those of the words up to and including the first failing one |
| `Directories.FailsIffSomeRequestFails` | gosearch/gosearch.go:73-76 | the probe fails exactly when some request fails in transport, and it fails with the error of the first such request, whatever was confirmed before |
| `Directories.LastRequestIsTheFailure` | gosearch/gosearch.go:71-76 | on failure the last URL requested is the failing one and all earlier requests went through, so no later word is probed; on success every word is probed |
| `Directories.DirectoriesExactly` | gosearch/gosearch.go:71-81 | a successful result has at most as many URLs as there are words; each is `base/w` for a word w whose request ended at that same URL with status 200; they follow word-list order; and every such word's URL is included |
| `Directories.WordOf` | gosearch/gosearch.go:71-81 | the word a confirmed directory comes from is a position of the word list |
| `InputAreas.ReportsForm` | gosearch/gosearch.go:106-109 | a form is reported exactly when its `action` exists and its first characters are the base URL |
| `InputAreas.ReportsLink` | gosearch/gosearch.go:141-145 | a link is reported exactly when its `href` exists, its first characters are the base URL and some character of it is `?` |
| `InputAreas.IsPost` | gosearch/gosearch.go:111-112 | a method that posts is present and four characters long, so the default "GET" never posts; `IsPostSpelling` gives the exact spellings |
| `InputAreas.Classify` | gosearch/gosearch.go:114-126 | an unknown content type carries the text as written; a known kind is one whose media type is the lower-cased content type; `ClassifyIgnoresCase` and `UnknownKeepsText` characterise it fully |
| `InputAreas.FieldName` | gosearch/gosearch.go:130 | a field is shown by its `name` attribute, or "Unnamed" when it has none |
| `InputAreas.FormEvents` | gosearch/gosearch.go:105-137 | a form yields events exactly when it is reported, the first being its action, and never a page error or a link event; `FormEventsExactly` lists its events |
| `InputAreas.LinkEvents` | gosearch/gosearch.go:141-149 | a link yields at most one event; it yields one exactly when it is reported, and that event is a `QueryLinkFound` of its `href` |
| `InputAreas.FormsEvents` | gosearch/gosearch.go:105-137 | the report on the forms holds no page error and no link event |
| `InputAreas.LinksEvents` | gosearch/gosearch.go:140-151 | the report on the links holds only link events, no more events than there are links; `LinksEventsExactly` gives membership |
| `InputAreas.ScanPage` | gosearch/gosearch.go:90-157 | an error event appears exactly when the page could not be fetched or parsed, and then it is the only event; `UnreadablePageReportsOnlyItsError` and the `Reported*` lemmas below give what a page reports |
| `InputAreas.FieldEvents` | gosearch/gosearch.go:129-131 | one event per field, in document order, naming the field by its `name` attribute or "Unnamed" |
| `InputAreas.ButtonEvents` | gosearch/gosearch.go:132-134 | one event per button, in document order, carrying the button's text |
| `InputAreas.UnreadablePageReportsOnlyItsError` | gosearch/gosearch.go:91-102 | a page that cannot be fetched or parsed yields its error and no other event |
| `InputAreas.FormReportedIff` | gosearch/gosearch.go:106-110 | a form yields any event at all exactly when it has an `action` that starts with the base URL, and then its first event reports that action |
| `InputAreas.FormEventsExactly` | gosearch/gosearch.go:105-137 | a form's report holds, for a reported form, exactly its action, its content type when it posts, its field names and its button texts, and for any other form nothing |
| `InputAreas.ContentTypeOnlyWhenPosting` | gosearch/gosearch.go:111-114 | a content-type event appears exactly for a reported form whose method is POST; a form with no method (taken as GET) never yields one |
| `InputAreas.IsPostSpelling` | gosearch/gosearch.go:111-112 | the method counts as POST exactly when it is present and spells "post" in any mix of upper and lower case |
| `InputAreas.MediaType` | gosearch/gosearch.go:116-122 | each `case` label of the content-type switch is a non-empty media type without upper-case letters, so the lower-cased content type can match it |
| `InputAreas.ClassifyMediaType` | gosearch/gosearch.go:115-123 | each of the four known media types is classified as its own kind |
| `InputAreas.ClassifyByLowerCase` | gosearch/gosearch.go:115-123 | a content type gets a known kind exactly when its lower case is that kind's media type |
| `InputAreas.ClassifyIgnoresCase` | gosearch/gosearch.go:114-123 | a content type gets a known kind exactly when it equals that kind's media type up to letter case |
| `InputAreas.UnknownKeepsText` | gosearch/gosearch.go:114-126 | a content type is unknown exactly when it matches none of the four media types up to case; an unknown type is reported as written, not lower-cased; a missing `enctype` is the unknown type "" |
| `InputAreas.LowerCaseUnchanged` | gosearch/gosearch.go:115 | text without upper-case letters is its own lower case, so the four lower-case media types match themselves |
| `InputAreas.FormsEventsExactly` | gosearch/gosearch.go:105-137 | an event is in the report on the forms exactly when it is in the report on one of them |
| `InputAreas.LinksEventsExactly` | gosearch/gosearch.go:140-151 | an event is in the report on the links exactly when it names the `href` of a reported link |
| `InputAreas.ReportedActions` | gosearch/gosearch.go:105-110 | a page reports an action exactly when one of its forms has that action and it starts with the base URL |
| `InputAreas.ReportedContentTypes` | gosearch/gosearch.go:111-127 | a page reports a submission kind exactly when a reported POST form has a content type of that kind |
| `InputAreas.ReportedInputs` | gosearch/gosearch.go:129-131 | a page reports a field name exactly when a field of a reported form has that name ("Unnamed" for none); fields of forms that are not reported never appear |
| `InputAreas.ReportedButtons` | gosearch/gosearch.go:132-134 | a page reports a button text exactly when a button of a reported form has that text |
| `InputAreas.ReportedLinks` | gosearch/gosearch.go:140-151 | a page reports a link exactly when its `href` exists, starts with the base URL and contains a `?` |

## Left out

- Reading the word-list file (`ioutil.ReadFile`) is an input: its error or the file's contents.
- `http.Get`, redirect following and the rendering of the final URL (`resp.Request.URL.String()`) are an oracle from the requested URL to a reply. Because the oracle is a function, a word listed twice gets the same reply both times; a real server may answer differently. More generally each reply is assumed independent of the requests made before it: effects of earlier requests, such as running out of file descriptors because every response body stays open until the function returns (gosearch/gosearch.go:77), are not modelled.
- Closing response bodies (`defer resp.Body.Close()`) is resource handling, not behaviour.
- HTML parsing and CSS selection (goquery) are an input. The document is given as its forms and links in document order. Each form comes with its `input`, `textarea` and `select` elements in document order, and the text of its buttons. Nested forms and malformed HTML are not modelled.
- The empty loop over `script` elements does nothing and is not modelled.
- `main` is not modelled: argument and flag parsing, the usage message, `os.Exit`, and the loop that prints each directory and scans it.
- The `silent` flag, the progress line printed for each confirmed directory, and the ANSI colour codes only affect console text. Reports are `Event` values, not formatted strings.
- Text.Trim: only the ASCII white space of `strings.TrimSpace` (space, tab, line feed, vertical tab, form feed, carriage return) is modelled. Unicode spaces such as U+0085 and U+00A0 are not.
- Text.ToUpper: only ASCII letters are upper-cased. Go's Unicode case mapping also turns, for example, "poſt" (with U+017F) into "POST".
- Text.ToLower: only ASCII letters are lower-cased. Go's Unicode case mapping also lower-cases letters outside ASCII.
- InputAreas.IsPostSpelling: follows the ASCII-only upper-casing, so a method such as "poſt", which Go treats as POST, is not one here.
- InputAreas.ClassifyIgnoresCase: follows the ASCII-only lower-casing. Go's `strings.ToLower` also maps some non-ASCII letters to ASCII, for example U+0130 to 'i', so "APPLİCATION/JSON" is JSON in Go but unknown here.
- InputAreas.UnknownKeepsText: for the same reason, a content type that Go's Unicode lower-casing turns into a known media type, such as "APPLİCATION/JSON", is unknown here.
- Go strings are byte sequences; the model works on sequences of characters.
