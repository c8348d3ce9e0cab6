# Image downloader extension: download coordinator, page selection, history page

A Dafny model of the core of a browser extension that lets the user select
images on a web page and download them, as PNG files, into a chosen folder.
It has three parts:

- **Background coordinator** (`background.dfy`, module `Background`). This is
  the `Coordinator` class. Its fields are the pending queue, the queue saved by
  a pause, the `isDownloading` and `isPaused` flags, the download folder and
  the download history. There is one method per message branch: submit,
  pause, resume, cancel, status, set and get folder, history cleared and
  history imported. The drain comes in two steps:
  - `Step` is `processDownloadQueue`. It dequeues items, silently skips those
    already in the history, and issues the first new one with its
    destination path.
  - `Complete` is `handleDownloadComplete`. It records or reports the outcome
    and decides whether the drain continues.

  `Step` is a loop proved against the recursive specification `DrainStep`.
  Every method keeps the invariant `Valid()`:
  - a saved queue exists only while paused;
  - the pending and saved queues are never both non-empty;
  - the coordinator is never downloading while paused.

  Broadcast notifications go to a ghost `events` log.
- **Page script** (`content.dfy`, module `Content`). It covers:
  - choosing the URL to download for an `<img>`: a `data:` passthrough, then
    `data-src`, then `data-original`, then the widest `srcset` entry;
  - deriving the `.png` file name;
  - the `Page` class holding the selection list, which click, select-all,
    clear and replace change.
- **History page** (`history.dfy`, module `HistoryPage`). It covers:
  - grouping the history by folder, with "Default Directory" for an empty
    folder. The predicate `IsGrouping` says what a correct grouping of a
    listing is, and `GroupImagesByFolder` is proved to build one;
  - newest-first order within a group, and folders in ascending name order;
  - the import merge, and clearing.

Two supporting modules hold shared definitions:
- `Types` holds the shared records.
- `Text` writes out by hand the JavaScript string operations the code relies
  on:
  - `split`, `trim`, ASCII `toLowerCase`;
  - the `/\.[^/.]+$/` extension strip and the `/^(\d+)w$/` width descriptor;
  - the default string order of `sort`.

`Scenarios` (`scenarios.dfy`) states request sequences against the coordinator
and proves their outcome. They show the behaviour when a pause, resume or cancel arrives between issuing
a download and its completion.

Behaviour kept as the code has it:
- A submit while paused with a saved queue drains the saved queue and drops
  the submitted list.
- A pause with nothing pending leaves the coordinator paused with an empty
  saved queue. A later submit stays paused and drains nothing.
- A completion arriving after a cancel still writes the history and
  reschedules the drain.
- The submit and resume replies count the pending queue after the first,
  synchronous drain step. The first item has then already been dequeued.
  The code calls `processDownloadQueue` before replying
  (js/background.js:40-44, 75-79).

## Model

| member | source | states |
|---|---|---|
| Types.FolderLabel | js/background.js:215 | An empty folder name is recorded as "Default Directory"; any other name is kept; the label is never empty. |
| Text.StripExtension | js/background.js:169 | `replace(/\.[^/.]+$/, "")`: the result is a prefix of the input. Either the pattern matches exactly where the result ends (a dot followed by at least one character, none of them '.' or '/', up to the end), or the pattern matches nowhere and the input is returned unchanged. |
| Text.Lower | js/background.js:168 | `toLowerCase()`: the same length, each character mapped by ASCII lower-casing. |
| Text.EndsWithPng | js/background.js:168 | `toLowerCase().endsWith('.png')`. A predicate with no ensures of its own; `PngSuffixLowered` states that a lower-case ".png" ending satisfies it. |
| Text.PngSuffixLowered | js/background.js:168 | A name ending in ".png" passes the case-insensitive ".png" test. |
| Text.Split | js/content.js:41 | `split(sep)`: there is at least one part, no part contains the separator, and joining the parts with the separator gives the input back. |
| Text.BeforeFirst | js/content.js:165 | The text before the first separator: a prefix without the separator, followed by it unless it is the whole input. |
| Text.AfterLast | js/content.js:165 | The text after the last separator: a suffix without the separator, preceded by it unless it is the whole input. |
| Text.Trim | js/content.js:46 | `trim()`: the result is a slice of the input (`CutAround`) with only whitespace before and after it, and it neither starts nor ends with whitespace. |
| Text.TrimStart | js/content.js:46 | The whitespace-free-headed suffix of the input, with only whitespace cut off before it. |
| Text.TrimEnd | js/content.js:46 | The prefix of the input that does not end in whitespace, with only whitespace cut off after it. |
| Text.SplitFirst | js/content.js:165 | The first part of `split(sep)` is the text before the first separator, or the whole input when there is none. |
| Text.SplitLast | js/content.js:165 | The last part of `split(sep)` (what `pop()` takes) is the text after the last separator, or the whole input when there is none. |
| Text.ParseWidth | js/content.js:49-51 | A width is read exactly when the text is one or more digits followed by 'w', and it is the decimal value of those digits. |
| Text.DecimalValue | js/content.js:51 | `parseInt(digits, 10)` on a string of digits. No ensures of its own; `ParseWidth` states that a descriptor's width is this value. |
| Text.StrLe | popup/history.js:66 | The default `sort()` order on strings: a prefix sorts first, otherwise the smaller character at the first difference. A predicate with no ensures of its own; `StrLeTotal` and `StrLeTransitive` state that it is a total order. |
| Text.StrLeTotal | popup/history.js:66 | Any two strings are comparable in the sort order. |
| Text.StrLeTransitive | popup/history.js:66 | The sort order is transitive. |
| Background.DestinationPath | js/background.js:161-170 | The path always ends in ".png", in any letter case. With a folder it starts with the folder and '/'. A name already ending in ".png" is kept; otherwise its last extension (as the pattern finds it) is replaced by ".png", or ".png" is appended when there is none. |
| Background.InFolder | js/background.js:162-165 | The file name under the folder and '/', or the file name alone when no folder is set. No ensures of its own; `DestinationPath` states what the path keeps of it. |
| Background.FirstNew | js/background.js:152-158 | The first queue position whose src is not in the history; every earlier item is in the history. |
| Background.DrainStep | js/background.js:139-158 | A paused drain changes nothing but the downloading flag and announces nothing. When every item is already downloaded, the queue empties, downloading stops and completion is announced. Otherwise the first new item (FIFO) is issued with its destination path, only the items after it remain, and downloading is set. |
| Background.CompletionNotice | js/background.js:143-147 | The `downloadComplete` broadcast of a drain step that found nothing left. No ensures of its own; `Coordinator.Step` appends it to the events. |
| Background.FailureText | js/background.js:229-236 | The platform's error message when there is a non-empty one; "Unknown error" when there is none; "Failed to download image" when it is empty. Never empty. |
| Background.SetupFailureText | js/background.js:195 | The thrown error's message when it is non-empty, else "Failed to set up download". Never empty. |
| Background.Succeeded | js/background.js:210 | The `if (downloadId)` test: an id is present and not 0. No ensures of its own; `Coordinator.Complete` states the outcome of each case. |
| Background.Coordinator.constructor | js/background.js:4-9 | Empty history and queues, both flags clear, no folder. |
| Background.Coordinator.RestoreFromStorage | js/background.js:251-260 | A stored history replaces the history; a non-empty stored folder replaces the folder. |
| Background.Coordinator.HistoryCleared | js/background.js:17-20 | The history becomes empty; the invariant is kept. |
| Background.Coordinator.HistoryImported | js/background.js:21-24 | The history becomes the merged history sent; the invariant is kept. |
| Background.Coordinator.DownloadedImages | js/background.js:104-106 | The reply holds exactly the history's keys, each with the history's record. |
| Background.Coordinator.GetStatus | js/background.js:109-116 | The reply reports the two queue lengths and both flags as they are. It is consistent: a paused queue is reported only while paused and with nothing pending, and never downloading while paused. |
| Background.Coordinator.SetFolder | js/background.js:119-123 | The folder becomes the given name. |
| Background.Coordinator.GetFolder | js/background.js:126-132 | The folder is reloaded from storage, or empty when none is stored, and is returned. |
| Background.Coordinator.Step | js/background.js:139-187 | The dequeue loop ends in exactly the state `DrainStep` gives for the old queue: pending queue, downloading flag, issued download and announced completion. The invariant is kept. |
| Background.Coordinator.Complete | js/background.js:209-248 | On success (an id present and not 0), only the image's history entry is written: timestamp, file name, folder label. On failure the history is unchanged. Either way the outcome is announced with the pending count. The drain continues unless paused; when paused, downloading stops. |
| Background.Coordinator.SetupFailed | js/background.js:188-205 | A download that cannot be set up: the failure is announced with the `SetupFailureText` and the pending count; the history is unchanged; the drain continues unless paused, and when paused downloading stops. The invariant is kept. |
| Background.Coordinator.Submit | js/background.js:28-45 | The folder is set, empty when none is given. Paused with a saved queue: the saved queue is resumed and the submitted list is dropped. Otherwise the list, or empty, becomes pending. A drain step runs only on a non-empty queue with no download in progress. The reply counts what is then pending. |
| Background.Coordinator.Pause | js/background.js:48-66 | Accepted exactly when downloading. On acceptance the pending queue moves to the saved queue, the coordinator is paused and not downloading, and the reply and notification carry the saved length. On refusal nothing changes and the message is "No active download to pause". |
| Background.Coordinator.Resume | js/background.js:69-83 | Accepted exactly when paused with a saved queue. On acceptance the saved queue is drained as `DrainStep` says, pause and saved queue are cleared, and the reply counts what is pending. On refusal nothing changes and the message is "No paused download to resume". |
| Background.Coordinator.Cancel | js/background.js:86-101 | Always accepted. It reports the pending count plus, when paused, the saved count, and leaves both queues empty and both flags clear. |
| Content.UsableEntry | js/content.js:46-51 | An entry is usable exactly when its trimmed text splits on ' ' into at least two parts, the second a width descriptor; its candidate is then the first part with that width. |
| Content.ParseEntry | js/content.js:46-51 | One `srcset` entry read as a candidate. No ensures of its own; `UsableEntry` states which entries are usable and what they give. |
| Content.Candidates | js/content.js:41-51 | The usable entries' candidates, never more than the entries; `CandidatesInOrder` states which and in what order. |
| Content.CandidatesInOrder | js/content.js:41-51 | Each entry contributes its candidate, when usable, at its own place and nothing otherwise: the candidates are the usable entries in `srcset` order. |
| Content.FilterMapInOrder | js/content.js:41-51 | The same, for any per-entry reading: each element contributes its value at its own place. |
| Content.Widest | js/content.js:45-58 | The `forEach` max-width scan. No ensures of its own; `WidestChoice`, `WidestPicksFirstWidest` and `WidestKeepsBest` state its result. |
| Content.WidestKeepsBest | js/content.js:52-55 | When no entry is strictly wider than the best so far, the scan keeps the current best. |
| Content.WidestPicksFirstWidest | js/content.js:42-58 | When an entry is wider than the start, the scan ends with the URL of the first entry of greatest width, so ties go to the earliest. |
| Content.FullResolutionUrl | js/content.js:25-63 | A `data:` src is returned as is. Otherwise `data-src` wins, then `data-original`. The result is never empty when the src is not. |
| Content.SrcsetUrl | js/content.js:37-63 | Without those: an empty `srcset` gives the src; any other gives the widest-candidate scan over its comma-separated entries, started from the src and width 0. |
| Content.WidestChoice | js/content.js:42-58 | That scan gives the URL of the first widest candidate when some candidate has a width above 0, and the src when every width is 0. |
| Content.ScanSrcset | js/content.js:41-58 | The `forEach` over the comma-separated entries returns the widest-entry URL that the candidate scan specifies, starting from the src and width 0. |
| Content.GetFullResolutionImageUrl | js/content.js:25-63 | The imperative URL choice returns exactly `FullResolutionUrl`. |
| Content.BaseName | js/content.js:165 | The base name is never empty and holds neither '/' nor '?'. |
| Content.BaseNameValue | js/content.js:165 | The base name is the text after the last '/', cut at the first '?', or "image" when that is empty. |
| Content.DeriveFilename | js/content.js:165-167 | Always ends in ".png" and holds no '/' or '?'. |
| Content.DerivedStem | js/content.js:165-167 | What precedes ".png" is a prefix of the base name: the part before the dot of its last extension, or the whole base name when it has no extension. |
| Content.DerivedNameKeptByPath | js/content.js:165-167 | A derived file name passes the background's ".png" rule unchanged and is saved under the folder as it is. |
| Content.HasSrc | js/content.js:13-15 | Holds exactly when some item has that src. |
| Content.WithoutSrc | js/content.js:160 | Keeps exactly the items of other srcs, never more items than before. |
| Content.WithoutSrcInOrder | js/content.js:160 | Each item is kept, at its own place, exactly when its src differs: the other items keep their order and multiplicity. |
| Content.WithoutAbsentSrc | js/content.js:160 | Filtering out a src no item has leaves the list unchanged. |
| Content.WithoutSrcUnique | js/content.js:160 | Removing a src keeps the srcs unique. |
| Content.NewItem | js/content.js:169-176 | The object a click or select-all pushes: the chosen URL, its derived file name, the natural size, the element's own `src` and the downloaded flag. No ensures of its own; `DerivedStem` and `BaseNameValue` state the file name. |
| Content.Toggle | js/content.js:159-176 | A selected src loses every item of that src: the result is the `WithoutSrc` filter, so the other items stay in order. An unselected src gets exactly the new item appended at the end. |
| Content.ToggleTwice | js/content.js:159-176 | Clicking an unselected image twice restores the original list. |
| Content.ToggleKeepsUnique | js/content.js:159-176 | A click never makes two items share a src. |
| Content.LargeEnough | js/content.js:252 | An element at least 50 by 50, the only ones select-all considers and the only ones given an overlay. A predicate with no ensures of its own. |
| Content.Selectable | js/content.js:251-272 | An element has an item to add exactly when it is at least 50 by 50; the item is the new item of its URL. |
| Content.AddIfNew | js/content.js:252-272 | The `forEach` body for one element: nothing without an item, nothing when its URL is already selected, else the item appended. No ensures of its own; the select-all lemmas below state its effect. |
| Content.SelectAllWith | js/content.js:250-273 | The `forEach` over the elements in document order. No ensures of its own; `SelectAllExtends`, `SelectAllUnique`, `SelectAllCovers` and `SelectAllAddsOnlyNew` state its result. |
| Content.SelectAllFrom | js/content.js:250-273 | Select-all with the page's rule `Selectable`. No ensures of its own; `SelectAllProperties` states its result. |
| Content.SelectAllExtends | js/content.js:251-273 | Select-all only appends; the items selected before stay in place. |
| Content.SelectAllUnique | js/content.js:251-273 | Select-all never introduces a duplicate src. |
| Content.SelectAllCovers | js/content.js:251-273 | After select-all, the src of every element's item is selected. |
| Content.SelectAllAddsOnlyNew | js/content.js:251-273 | Every item after the old selection is some element's item, and its src is not selected before it. |
| Content.SelectAllProperties | js/content.js:251-273 | For the page's rule: the old selection stays in place; srcs stay unique; the URL of every element at least 50 by 50 is selected; every added item is the new item of such an element with a URL not selected before it. |
| Content.Page.constructor | js/content.js:2-5 | The page script starts with no selection, enabled, and no history. |
| Content.Page.Initialize | js/content.js:198-209 | The stored selection and enabled flag are adopted when stored; the history is the stored one or empty. |
| Content.Page.DownloadedImagesReceived | js/content.js:216-221 | A history in the background's reply replaces the page's history, so a src counts as downloaded exactly when the reply has it; no history in the reply leaves it unchanged. |
| Content.Page.IsImageDownloaded | js/content.js:8-10 | Holds exactly when the src is a history key. |
| Content.Page.IsImageSelected | js/content.js:13-15 | Holds exactly when some selected item has exactly that src. |
| Content.Page.SelectedImages | js/content.js:227-228 | The reply is the whole selection. |
| Content.Page.Click | js/content.js:150-178 | Disabled: nothing changes. Enabled: the selection becomes the toggle of the image's URL. A new item records whether that URL was already downloaded. |
| Content.Page.SelectAll | js/content.js:241-294 | Disabled: refused with "Extension is disabled" and nothing changes. Enabled: the selection becomes `SelectAllFrom` of the old one (what that adds and keeps is `SelectAllProperties`), and the reply counts the final selection. |
| Content.Page.ClearSelected | js/content.js:229-240 | The selection becomes empty. |
| Content.Page.UpdateSelected | js/content.js:295-296 | The supplied list replaces the selection; none supplied clears it. |
| Content.Page.SetExtensionState | js/content.js:330-331 | The enabled flag becomes the given state. |
| Content.Page.HistoryCleared | js/content.js:340-342 | The page's history becomes empty. |
| Content.Page.HistoryImported | js/content.js:347-349 | The page's history becomes the imported one. |
| HistoryPage.Entries | popup/history.js:34-44 | One card per entry, in listing order, carrying its src, file name, timestamp and folder label. |
| HistoryPage.ToEntry | popup/history.js:35-44 | The card pushed for one entry: src, file name, timestamp and the folder label. No ensures of its own; `Entries` states each card in terms of it. |
| HistoryPage.InGroup | popup/history.js:34-45 | A folder's group holds exactly the cards of that folder. |
| HistoryPage.InsertNewest | popup/history.js:49 | Inserting into a newest-first list keeps it newest first, and adds exactly the one card. |
| HistoryPage.SortNewestFirst | popup/history.js:49 | The result is newest first and a permutation of the input. |
| HistoryPage.GroupedProperties | popup/history.js:31-50 | In any grouping of the listing (`IsGrouping`), every group is newest first. Every history entry is in the group of its folder label and in no other, and every card of a group comes from the history. |
| HistoryPage.CollectByFolder | popup/history.js:32-45 | The first loop creates exactly one group per folder label occurring, each holding its cards in listing order. |
| HistoryPage.SortEachGroup | popup/history.js:48-50 | The second loop sorts every group newest first as a permutation, keeping the same folders. |
| HistoryPage.GroupImagesByFolder | popup/history.js:31-53 | The two passes build a grouping of the listing (`IsGrouping`): the folders are exactly the folder labels occurring, and each group is its folder's cards sorted newest first. |
| HistoryPage.SortedFolders | popup/history.js:66 | The folder names, each once, in strictly ascending order. |
| HistoryPage.Sections | popup/history.js:68-90 | One section per folder in the given order, showing that folder's group. |
| HistoryPage.Display | popup/history.js:61-91 | Sections are titled by exactly the groups' folders, in strictly ascending order, each showing its group's cards. |
| HistoryPage.ShownOnce | popup/history.js:31-91 | For a grouping of the listing, the cards of all displayed sections together are a permutation of the history's cards, so their number is the number of entries. |
| HistoryPage.ShowsHistory | popup/history.js:31-91 | For a grouping of the history's entries, every stored image has its card on the page, and every card shown is a stored image's. |
| HistoryPage.InitialView | popup/history.js:2-13 | "No downloaded images" is shown exactly when there is no history or it is empty. Otherwise the grouping's folder sections are shown, at least one of them. |
| HistoryPage.MergeHistory | popup/history.js:164-165 | The keys are the union. The imported record wins on a shared key, and the other current records stay. |
| HistoryPage.MergeIdempotent | popup/history.js:165 | Importing the same file twice gives the same history as importing it once. |
| HistoryPage.ImportHistory | popup/history.js:153-193 | A file that does not parse stores nothing. Otherwise the stored history, or empty when none, merged with the file is stored: the keys are the union, the file's records win, and the stored records of other srcs keep their value. |
| HistoryPage.ClearHistory | popup/history.js:200-202 | A confirmed clear stores the empty history; otherwise the history is unchanged. |
| Scenarios.PauseWithEmptyQueueThenSubmit | js/background.js:32-56 | A pause with nothing pending leaves the coordinator paused. A following submit keeps the list pending, issues nothing and announces no completion. |
| Scenarios.SubmitWhilePaused | js/background.js:32-35 | A submit while paused with a saved queue drains the saved queue, whatever list was submitted. |
| Scenarios.PauseThenResume | js/background.js:50-77 | Pause then resume drains exactly the queue that was pending at the pause. |
| Scenarios.CompletionAfterCancel | js/background.js:86-101 | A successful completion after a cancel still writes the history entry and continues the drain. That drain step then announces completion on the empty queue. |

## Left out

- The popup (popup/popup.js) is not part of this model. It renders buttons and a progress bar and mirrors the coordinator's notifications.
- Browser APIs are not modelled: storage, messaging, tab queries and the platform download call. Each becomes an input or a result:
  - the download call's result is the `downloadId`/`lastError` input of `Complete`;
  - broadcast notifications go to the ghost `events` log;
  - storage reads are `Option` inputs.
- The 300 ms timer that reschedules the drain is not modelled. Each interleaving is a sequence of method calls (see `Scenarios`), not concurrency.
- The `data:` and URL branches of the download call (js/background.js:173-187) are identical, so they are one `Issued` result.
- `Coordinator.SetupFailed`: what makes setting up a download throw is not modelled; the thrown message is an input.
- `Content.Page.Click`: the overlay fixes the image's URL when it is attached (js/content.js:143) and reads the natural size and `src` at the click; the model reads all of them from one element, so an element whose attributes change in between is not modelled.
- The Google Images branch of the URL choice (js/content.js:66-91) is left out. It needs `URL`, `URLSearchParams` and DOM lookups.
- DOM overlays are left out: creation, positioning and the 5-pixel rectangle match. These are floating-point layout.
- `JSON.parse`/`stringify`, `Blob`, `FileReader`, `confirm`/`alert` and date formatting in the history page are left out:
  - a parsed file is an `Option<History>` input;
  - confirmation is a `bool` input;
  - the history export is left out entirely.
- `Text.Lower`, `Text.Trim`: case mapping and whitespace cover ASCII only, not Unicode.
- `Text.StrLe`: strings compare by code point, whereas JavaScript compares UTF-16 code units. The two orders differ only for characters outside the Basic Multilingual Plane.
- `Text.ParseWidth`: widths are unbounded naturals; `parseInt` loses precision above 2^53.
- `HistoryPage.GroupImagesByFolder`: the enumeration order of `Object.entries` is a `Listing` input.
- `HistoryPage.SortNewestFirst`: is stable by construction. Stability (equal timestamps keep listing order) is not stated as a lemma.
- The history is a map from src to a `Record`. These are not modelled:
  - imported JSON whose values are not records;
  - a JSON value that is not an object;
  - keys that collide with `Object.prototype` members;
  - a falsy history value that `processDownloadQueue` would not skip.
- `HistoryPage.SortedFolders` and `HistoryPage.Display` are ghost functions. The least remaining folder is chosen by existence and not computed.
- `HistoryPage.CollectByFolder` and `HistoryPage.SortEachGroup` are the two loops of `groupImagesByFolder`, written as two methods that `GroupImagesByFolder` calls in turn.
- `Content.ScanSrcset` is the `srcset` `forEach` of `getFullResolutionImageUrl`, written as its own method.
