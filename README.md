# LeadScout: a verified model of the extractor and the lead store

LeadScout is a browser extension. Its content script reads the page the user
is looking at and guesses a person's name, role, company and URL from it. Its
popup shows that guess in four editable inputs, saves confirmed entries
("leads") to local storage, deletes them one at a time or all at once, and
exports them as CSV.

This project models both halves in Dafny:

- `wrappers.dfy`, module `Wrappers`: `Option`, used for a DOM lookup that may
  find nothing and for a reply that may not arrive.
- `js_strings.dfy`, module `JsStrings`: the JavaScript string operations the
  extension relies on, with their ECMAScript meaning. These are `includes`,
  `indexOf`, `split` on a string, `split` on the character class `/[.,]/`,
  `Array.prototype.join` and `trim`. The `trim` whitespace set is the
  ECMAScript WhiteSpace and LineTerminator set.
- `content_script.dfy`, module `ContentScript`: the site classifier and the
  three extraction strategies, as pure functions over an abstract `Page`.
  A `Page` holds the URL and the document title. For every element selector
  the script queries it holds `Some(innerText)` or `None`. For the
  `description` meta tag it holds `Some(content)` or `None`.
- `extractor_examples.dfy`, module `ExtractorExamples`: the worked examples
  of the extractor, each proved from the general lemmas.
- `popup.dfy`, module `Popup`: the prefill merge, the `LeadStore` class and
  the CSV export. `LeadStore` is a `seq<Lead>` field with `Save`, `Delete`,
  `Clear` and `ExportCsv` methods. `ExportCsv` builds the row list in a loop
  and is proved equal to the recursive definition `CsvText`.

Three details of the code decide the results, and the model follows them:

- LinkedIn name: the code takes the first selector that is *present*
  (`a || b` on elements), even when its text is empty. It is not the first
  *non-empty* text.
- LinkedIn and generic company: the code takes `split(" at ")[1]`. That is the
  text between the first and the second `" at "`, not everything after the
  first one.
- Generic name from the title: the code takes the first `'|'` piece and then
  its first `'-'` piece, even when that piece is empty. It does not look for
  the first non-empty piece.

## Model

| member | source | states |
|---|---|---|
| `Wrappers.Option.OrElse` | content_script.js:25-26 | `a \|\| b` on two lookups: the first one present wins, and the second is used only when the first is absent |
| `JsStrings.Find` | content_script.js:37 | `indexOf`: when found, the separator occurs at the result and nowhere earlier; the result is absent exactly when the string does not include the separator |
| `JsStrings.Before` | content_script.js:38 | the text before the first separator is a prefix containing no occurrence, followed by the separator when there is one; with no separator it is the whole string |
| `JsStrings.After` | content_script.js:38 | the string is the text before the first separator, then the separator, then the result |
| `JsStrings.Split` | content_script.js:38 | `split` gives at least one piece, and two or more exactly when the separator occurs |
| `JsStrings.SplitFirst` | content_script.js:81 | `split(sep)[0]` is the text before the first separator |
| `JsStrings.SplitSecond` | content_script.js:38 | `split(sep)[1]` is the text between the first separator and the next one (or the end), not the whole remainder |
| `JsStrings.JoinSplit` | content_script.js:92 | joining the pieces of a split with the same separator gives the string back |
| `JsStrings.SplitJoin` | popup.js:179 | splitting a join on a one-character separator that no part contains gives the parts back |
| `JsStrings.FindAny` | content_script.js:94 | the index of the first character in the class, with no class character before it; absent exactly when no character is in the class |
| `JsStrings.SplitAny` | content_script.js:94 | `split(/[.,]/)`: the first piece is the prefix up to the first `.` or `,`; no piece contains either character |
| `JsStrings.SplitAnyFirst` | content_script.js:94 | the first piece ends exactly at the first character of the class |
| `JsStrings.Trim` | content_script.js:27 | `trim` returns a slice of its input with only whitespace around it, and the slice itself has no leading or trailing whitespace |
| `JsStrings.TrimUnique` | content_script.js:27 | trimming whitespace + t + whitespace gives exactly t when t has no surrounding whitespace, so trim strips exactly the surrounding whitespace |
| `JsStrings.TrimOfTrimmed` | content_script.js:27 | a string with no surrounding whitespace is unchanged by trim |
| `JsStrings.TrimIdempotent` | content_script.js:27 | trimming twice is the same as trimming once |
| `ContentScript.ElementText` | content_script.js:31 | `elem ? elem.innerText.trim() : ""`: a present element gives its trimmed text, a missing one gives `""`, and the result is always trimmed |
| `ContentScript.Classify` | content_script.js:12-18 | a URL with `linkedin.com/in/` goes to LinkedIn, even when it also holds `x.com`; otherwise `twitter.com` or `x.com` goes to Twitter; anything else goes to generic; exactly one strategy is chosen |
| `ContentScript.ScrapeLinkedIn` | content_script.js:21-47 | the name comes from the first present name selector, else `""`; the role is the trimmed headline, else `""`; the company is the trimmed text between the first and the second `" at "` of the role, `""` when there is none; the URL is verbatim; all three texts are trimmed |
| `ContentScript.ScrapeTwitter` | content_script.js:49-67 | the company is always `"Twitter/X"`; the name is the trimmed user-name span, else the trimmed title before its first `'('` (the whole title when it has none); the role is `""` without a description element; the URL is verbatim |
| `ContentScript.ScrapeGeneric` | content_script.js:69-103 | a present `h1` wins even when its text is empty; otherwise the name is the title before `'\|'`, then before `'-'`, trimmed; a missing meta description counts as `""`; without `" at "` the role and company are `""`; otherwise the role is the trimmed text before the first `" at "`, and the company is the text between the first and the second, cut at the first `.` or `,`, then trimmed |
| `ContentScript.ScrapePage` | content_script.js:9-19 | the result is that of the strategy the classifier picks; every strategy gives the URL verbatim and a trimmed name, role and company |
| `ExtractorExamples.ClassifyProfileExample` | content_script.js:12-13 | a LinkedIn profile URL that also contains `x.com` goes to LinkedIn |
| `ExtractorExamples.ClassifyNetflixExample` | content_script.js:14-15 | `https://www.netflix.com/browse` contains `x.com`, so it goes to Twitter |
| `ExtractorExamples.ClassifyGenericExample` | content_script.js:16-17 | a URL matching none of the tests goes to generic |
| `ExtractorExamples.LinkedInCompanyOf` | content_script.js:37-39 | for a headline `x at y` that has no surrounding whitespace and where `x` has no space, the company is the trimmed text of `y` before its own first `" at "` |
| `ExtractorExamples.LinkedInCompanyExample` | content_script.js:37-39 | the headline `"Engineer at Acme Corp"` gives the company `"Acme Corp"` |
| `ExtractorExamples.LinkedInSecondSeparatorExample` | content_script.js:38 | the headline `"A at B at C"` gives the company `"B"` |
| `ExtractorExamples.TwitterTitleExample` | content_script.js:55 | with no user-name span, the title `"Jane Doe (@jane) / X"` gives the name `"Jane Doe"` |
| `ExtractorExamples.GenericTitleExample` | content_script.js:81 | with no `h1`, the title `"Jane Doe \| Home"` gives the name `"Jane Doe"` |
| `ExtractorExamples.GenericMetaExample` | content_script.js:91-95 | the meta description `"Senior Developer at Example Inc. Remote"` gives the role `"Senior Developer"` and the company `"Example Inc"` |
| `Popup.Prefill` | popup.js:40-49 | with a reply, each input takes the reply's field, or `""` when it is missing; with no reply, only the URL input changes, to the tab's URL; with no active tab nothing changes |
| `Popup.PrefillFromPage` | popup.js:40-44 | a reply from the content script fills the inputs with exactly what the extractor found, whatever they held before |
| `Popup.PrefillIdempotent` | popup.js:40-49 | prefilling again with the same outcome changes nothing |
| `Popup.WithoutId` | popup.js:139 | `filter(l => l.id !== id)`: a lead is kept exactly when it was in the list and its id differs; the list never grows |
| `Popup.WithoutIdCounts` | popup.js:139 | each lead without that id is kept as many times as it occurred; leads with the id are all gone |
| `Popup.WithoutAbsentId` | popup.js:139 | deleting an id that no lead carries leaves the list unchanged |
| `Popup.WithoutIdAppend` | popup.js:139 | the filter keeps order: on a concatenation it filters each part in place |
| `Popup.WithoutIdCommutes` | popup.js:139 | deleting two ids gives the same list in either order |
| `Popup.DeleteUndoesSave` | popup.js:83 | deleting the id of a lead that was just saved with a new id gives back the list as it was before the save |
| `Popup.LeadStore.constructor` | popup.js:82 | an empty store (`result.leads \|\| []`) is valid |
| `Popup.LeadStore.Save` | popup.js:65-91 | an empty name leaves the store unchanged and gives `"Please enter a name."`; any other name, whitespace included, appends exactly one lead at the end and gives `"Saved!"`; every stored lead has a non-empty name |
| `Popup.LeadStore.Delete` | popup.js:136-144 | the new list is the old one with the id filtered out |
| `Popup.LeadStore.Clear` | popup.js:146-152 | after clearing, the store is empty |
| `Popup.LeadStore.ExportCsv` | popup.js:157-179 | an empty store produces no CSV; otherwise the loop's result is the header line followed by one newline-led line per lead, in store order |
| `Popup.Quote` | popup.js:170-174 | a field becomes a double quote, the field unescaped, and a double quote |
| `Popup.RowLines` | popup.js:168-177 | one line per lead, in store order |
| `Popup.HeaderJoin` | popup.js:165-166 | the joined headers are `Name,Role,Company,URL,Date` |
| `Popup.RowJoin` | popup.js:169-176 | the comma join of the five quoted fields is the lead's row |
| `Popup.JoinRowLines` | popup.js:179 | joining the header and the rows with `'\n'` gives the header followed by `'\n'` + row for each lead |
| `Popup.CsvLines` | popup.js:165-179 | when no field contains a newline, the CSV splits into exactly N+1 lines: the header, then each lead's row in order |
| `Popup.RowFields` | popup.js:169-176 | when no field contains a comma, a row splits back into its five quoted fields in column order |
| `Popup.RowsEndInQuote` | popup.js:179 | the rows of a non-empty list end with a closing quote |
| `Popup.CsvShape` | popup.js:165-179 | the CSV starts with the header; with no leads it is only the header; with leads its last character is a quote, so there is no trailing newline |

## Left out

- Chrome messaging and script injection (`chrome.runtime.onMessage`, `chrome.tabs.query`, `sendMessage`, `executeScript`, `lastError`). They are modelled only as their outcome: an active tab or not, and a reply or not.
- `chrome.storage.local`: it becomes the `leads` field of `LeadStore`. The read-modify-write race between two popup handlers is concurrency and is not modelled.
- `confirm` before clearing and `alert` on an empty export are dialogs. `Clear` models the confirmed path. `ExportCsv` returns `None` where the alert is shown.
- The status-message colours and the `setTimeout` that clears the status message are UI timing.
- Tab and view switching and the HTML built by `renderLeads` are UI.
- The `Blob`, the object URL and the hidden-link download after the CSV text is built are browser I/O.
- `Date.now()` and `toLocaleDateString()`: the clock is nondeterministic, so the id and date are parameters of `Save`.
- Id uniqueness is not claimed: the source does not check it, and two saves within one millisecond get the same id. `Delete` removes every lead with the id.
- DOM access (`querySelector`, `innerText`, `window.location`) becomes the fields of `Page`. How the browser computes `innerText` from markup is not modelled.
- Popup.LeadStore.Save: requires and keeps `Valid()`, meaning every stored lead has a non-empty name. The source does not check this of what it reads back from storage. The invariant holds because only `Save` adds leads.
- Strings are sequences of Dafny `char`, which are Unicode scalar values. JavaScript strings are UTF-16 code units, so a lone surrogate cannot be represented. Results agree on all other text: every separator the code uses is ASCII, and every character `trim` removes is in the Basic Multilingual Plane.
