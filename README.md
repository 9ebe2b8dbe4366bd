# Cookie copier extension — a verified model

A browser extension that copies the current site's cookies. It has three parts:

- **Popup** (`popup.js`). It lists, copies, clears and sets the cookies of the active tab.
- **Content script** (`content.js`). It runs in every page and offers a floating copy button, keyboard shortcuts and a small notification element.
- **Background service worker** (`background.js`). It answers messages and provides two utilities.

This project models the parts of those scripts that hold logic and proves what they do. The browser is treated as an input:

- the active-tab query;
- the `URL` parser;
- the outcomes of the cookie-store calls;
- whether the clipboard accepts a write;
- `decodeURIComponent`;
- the clock and the locale date renderer.

Modules:

- `Text`: JavaScript's `split` on one character, `join`, `trim`, and digit strings. Includes the lemmas that relate splitting and joining.
- `Browser`: the records the browser hands out (cookies, tabs, parsed URLs) and the requests the extension sends to the cookie store. Also the `Host` and `Clipboard` inputs.
- `Snapshot`: the popup's merge of the two `getAll` answers through a `Map`. `MergeSnapshot` is the insertion loop, proved equal to the functional `Merged`. The lemmas prove that:
  - names are unique;
  - every name of either answer is kept;
  - the last cookie of a name wins, which means the URL query wins ties;
  - each name keeps the position of its first occurrence.
- `PanelRules`: the popup's pure rules:
  - the simple and detailed clipboard formats;
  - the URL a cookie is removed by;
  - the clipboard helper's outcome;
  - the checks and values of the set-cookie form: trimming, `parseInt`, the 30-day default, the epoch-seconds expiry and the SameSite=None rule.
- `Panel`: the popup as a class. Its fields are the module state (`currentCookies`, `currentDomain`) and the parts of the page the handlers change. It also keeps traces of the `remove` and `set` calls issued. Each button is a method. `Refreshed(host)` is what `getCookies` leaves: the new hostname, snapshot and count, or the old ones after a failure. Every handler that fetches ends in that state unless it goes on to change the snapshot. `SnapshotKept()` says the snapshot, hostname, count and key list are unchanged. `Valid()` says that every cookie sent with `sameSite = no_restriction` was sent secure, and `SaveCookie` preserves it.
- `PageCookies`: `parseCookies`, whose `forEach` loop is a method proved equal to a functional specification, and `formatCookiesObject`. Property order follows the order `Object.entries` uses: array-index names first, ascending, then the other names in creation order. The lemmas include:
  - which pieces are kept;
  - later pieces overwrite earlier ones;
  - an undecodable value aborts the whole parse;
  - a round trip: formatting and then parsing an object gives back its entries.
- `PageAgent`: the content script's state as a class:
  - the injection guard;
  - the `floatingButton` and `isFloatingButtonVisible` variables and the number of buttons in the page;
  - the notification element and its two timers.

  The message listener, the keyboard shortcuts and the unload handler are methods. `Valid()` says there is at most one button and at most one notification. `Synced()` says the button exists exactly when the flag is set. Show, hide and toggle preserve `Synced()`; the unload handler breaks it.
- `Background`: the worker's message dispatch and handlers as functions, plus `formatCookieString` and `isValidDomain`. The domain pattern is modelled in the shape of the regular expression. A lemma proves that it accepts exactly the dot-separated sequences of DNS labels.

In the snapshot merge the domain query's cookies are inserted into the `Map` first and the URL query's second. So on a name clash the URL query's cookie is the one kept (`Snapshot.UrlQueryWinsTies`).

## Model

| member | source | states |
|---|---|---|
| Text.Trim | popup.js:287-289 | `trim` leaves no white space at either end. |
| Text.TrimSlice | popup.js:287-289 | What `trim` keeps is a slice `s[i..j]` of its input, and everything before `i` and from `j` on is white space. |
| Text.Split | content.js:260-261 | `split` on one character gives at least one piece, no piece contains the separator, and joining the pieces with the separator restores the input. |
| Text.SplitJoin | content.js:260-261 | Splitting undoes joining when no part contains the separator. |
| Text.JoinLength | popup.js:97-99 | A join of n parts contains the parts' characters plus exactly n−1 separators. |
| Snapshot.InsertionOrder | popup.js:45-50 | The keys of a `Map` after a sequence of `set` calls are distinct, and they are exactly the names that were set. |
| Snapshot.MergeSnapshot | popup.js:45-50 | The `forEach` insertion into a `Map`, followed by `Array.from(values())`, yields the functional merge of the domain answer followed by the URL answer. |
| Snapshot.MergedNamesExact | popup.js:45-50 | The snapshot holds each name exactly once, and a name is in it exactly when it is in either answer. |
| Snapshot.MergedAt | popup.js:46-47 | Each snapshot entry is the last cookie of its name in the concatenation. This restates the definition of `Merged` for a single index; the tie-breaking and order content is in `UrlQueryWinsTies` and `SnapshotOrder`. |
| Snapshot.UrlQueryWinsTies | popup.js:39-50 | A name in the URL answer takes its last cookie from the URL answer. A name only in the domain answer takes the domain answer's last cookie. |
| Snapshot.InsertionOrderByFirstOccurrence | popup.js:46-48 | `Map` keys are ordered by the position of each name's first `set`. |
| Snapshot.SnapshotOrder | popup.js:45-50 | One snapshot cookie precedes another exactly when its name first occurred earlier in the concatenation. |
| PanelRules.FormatEmptyIff | popup.js:97-99 | The simple format is `""` exactly for an empty list. |
| PanelRules.FormatSimpleItems | popup.js:97-99 | For a non-empty list whose names and values contain no `;`: read back on `;`, the simple format gives the `name=value` items in list order, one piece per cookie. So there are exactly n−1 separators, each followed by its space. |
| PanelRules.Rule | popup.js:115 | The record separator contains a rule of exactly 50 `=` characters. |
| PanelRules.Records | popup.js:103-115 | There is one record per cookie. |
| PanelRules.DetailedIsLayout | popup.js:102-116 | The detailed text is its line layout joined by newlines: each record's lines, with an empty line, the rule and an empty line between records. |
| PanelRules.DetailedLines | popup.js:102-116 | For fields without line breaks, reading the detailed text back line by line gives exactly that layout. |
| PanelRules.RecordShape | popup.js:104-113 | Each record has eight lines in the fixed order. A missing or zero expiry shows the session sentinel and otherwise shows the locale date of `expirationDate*1000`. An empty SameSite shows the "unset" sentinel. |
| PanelRules.StripLeadingDot | popup.js:237 | The removal URL's domain is the cookie's domain, or that domain with its one leading `.` removed. |
| PanelRules.RemovalScheme | popup.js:236-237 | The removal URL starts with `https://` exactly for a secure cookie, and with `http://` exactly for the others. |
| PanelRules.RemovalUrlDot | popup.js:236-237 | `.d` is removed through scheme + `d` + path. That is the same URL as for `d`, unless `d` itself starts with a dot: only one dot is removed. |
| PanelRules.CopyToClipboard | popup.js:74-94 | The helper succeeds exactly when `writeText` resolves or the fallback copy command reports success. This is the corrected definition; see Findings. |
| PanelRules.CopyToClipboardAsWritten | popup.js:74-94 | The helper as written fails exactly when `writeText` rejects and the fallback throws. So it succeeds whenever the copy command returns at all, even when the command reports failure, and it succeeds whenever the corrected helper does. |
| PanelRules.CopyHelpersAgree | popup.js:81-92 | The helper as written and the corrected helper differ exactly when `writeText` rejects and the copy command returns false without throwing. |
| PanelRules.RefusedCopyReportedAsWritten | popup.js:86-88 | The helper as written reports success for a copy that the copy command refused. |
| PanelRules.CheckForm | popup.js:296-303 | An empty trimmed name is rejected, and this is checked first. An empty trimmed value is rejected next. The form passes exactly when both trimmed fields are non-empty. |
| PanelRules.DigitRun | popup.js:290 | `parseInt` scans the longest run of digits at the front. |
| PanelRules.ParseIntDecimal | popup.js:290 | `parseInt` reads back the decimal text of every natural number. |
| PanelRules.ParseDigits | popup.js:290 | A string of decimal digits is read whole, as its base-ten value. |
| PanelRules.ParseIntMinus | popup.js:290 | After a leading minus sign, `parseInt` reads the digits that follow and negates them. Without digits, the result is NaN. |
| PanelRules.ExpiryDays | popup.js:290 | The expiry in days (`parseInt`, with 30 as the fallback) is never 0. A NaN or 0 result gives 30; any other number is kept. |
| PanelRules.ExpirationDate | popup.js:310 | The expiry in epoch seconds is the current time in whole seconds, rounded down, plus `days*86400`. |
| PanelRules.SetRequestOf | popup.js:287-324 | The request sent to the store carries the tab URL and the trimmed name and value. The path is the trimmed path, or `/` when that is blank. SameSite and HttpOnly are taken from the form. `secure` is forced true for `no_restriction` and is the checkbox otherwise. The expiry is computed from the parsed days. |
| PanelRules.DefaultExpiry | popup.js:354 | The form's default expiry text `30` reads as 30 days. |
| PanelRules.DefaultPath | popup.js:353 | The form's default path `/` survives trimming. |
| PanelRules.BlankFormDefaults | popup.js:350-358 | A cleared form, whatever name and value are then typed in, sends path `/` and SameSite `lax`, and is not secure. |
| PanelRules.BlankFormExpiry | popup.js:350-358 | A cleared form, whatever name and value are then typed in, sends a cookie that expires 30 days from now. |
| Panel.TabUrl | popup.js:306-307 | The tab URL is available exactly when the tab's hostname is, that is, when there is a tab whose URL parses. It is then the active tab's own `url`. |
| Panel.Removals | popup.js:234-243 | Clear-all issues one removal per snapshot cookie, in order, each with the cookie's rebuilt URL and its name. |
| Panel.FirstRejected | popup.js:234-245 | The loop stops at the first removal whose promise rejects. Every earlier one resolved. |
| Panel.FirstRejectedAt | popup.js:234-245 | After k resolved removals, the stop index is k exactly when the next removal rejects or none is left. |
| Panel.ClearCountsCalls | popup.js:231-245 | When every removal resolves, `deletedCount` equals the snapshot length. It counts calls made, not cookies confirmed removed. |
| Panel.CookiePanel.constructor | popup.js:19-20 | The popup opens with no cookies, an empty domain, the form blank and hidden, and no calls issued. |
| Panel.CookiePanel.GetCookies | popup.js:29-59 | The result is the merged snapshot, and it becomes `currentCookies` and the shown count (`Refreshed`). `currentDomain` is updated once the URL parses. Any failure reports an error, keeps the previous snapshot and count and returns `[]`. |
| Panel.CookiePanel.CopyAll | popup.js:156-174 | An empty snapshot reports "no cookies". Otherwise the simple format goes to the clipboard. Success reports the count; failure reports the error and shows the text for manual copying. In every case the snapshot, count and hostname are as `getCookies` left them. |
| Panel.CookiePanel.CopyDetailed | popup.js:177-194 | The same as `CopyAll`, with the detailed format, including the state `getCookies` leaves. |
| Panel.CookiePanel.ViewList | popup.js:197-214 | An empty snapshot reports "no cookies" and leaves the list alone. Otherwise a closed list opens on the fresh snapshot, and an open list closes, and the status is left as it was. The snapshot, count and hostname are as `getCookies` left them. |
| Panel.CookiePanel.CopyKey | popup.js:131-148 | Clicking a listed key copies that cookie's `name=value`. Success reports the name; failure reports an error. |
| Panel.CookiePanel.ClearAll | popup.js:216-264 | An empty snapshot reports "no cookies". Without confirmation nothing is issued. After confirmation, `remove` calls are issued in snapshot order until the first rejection. If all resolve, the status shows the snapshot length, the snapshot and count are reset and an open list is emptied and closed. A rejection reports an error and keeps the snapshot. `currentDomain` is left as `getCookies` set it. With an empty snapshot or without confirmation, the snapshot, count and hostname are as `getCookies` left them. Returns the snapshot it worked on. |
| Panel.CookiePanel.ResetAfterClear | popup.js:247-257 | After a clear in which every removal resolved: the status reports the number removed, the snapshot and count are reset, and an open key list is emptied and closed while a closed one is left alone. |
| Panel.CookiePanel.ClearSnapshot | popup.js:225-264 | Once the snapshot is fetched: without confirmation nothing changes. With it, the calls issued are the removals up to the first rejection. Either the reset state after full success or the error status with the snapshot untouched. |
| Panel.RemoveEach | popup.js:234-245 | The awaited removal loop: the calls it issues are the snapshot's removals up to and including the first rejected one. `deletedCount` counts the resolved ones. The loop fails exactly when one was rejected. |
| Panel.CookiePanel.ToggleForm | popup.js:267-276 | The set-cookie button opens the form, or closes it and clears it. |
| Panel.CookiePanel.CancelForm | popup.js:279-283 | Cancel closes the form and clears it. |
| Panel.CookiePanel.EditForm | popup.js:287-293 | The field values the save handler reads are the user's input. |
| Panel.CookiePanel.SaveCookie | popup.js:286-347 | An empty name, then an empty value, is rejected without calling `set`. Without a parseable tab URL the save fails without calling `set`. Otherwise exactly one `set` call with `SetRequestOf` is issued, and it is returned. In all these failures, and when `set` rejects, the form, its visibility, the snapshot, count, hostname and key list stay as they were. When `set` resolves, the form is cleared and hidden, the snapshot, count and hostname are as `getCookies` leaves them, and an open list shows the snapshot. Every cookie sent with `no_restriction` is secure, and this is preserved. |
| Panel.CookiePanel.Submit | popup.js:326-346 | The `set` call is added to the trace. A rejection reports an error and leaves the form, its visibility, the snapshot, count, hostname and key list as they were. On success the form is cleared and hidden, the state is as `getCookies` leaves it, and an open list is refreshed. |
| Panel.CookiePanel.FinishSave | popup.js:328-341 | After a successful `set`: report it, clear and hide the form, fetch again (the snapshot, count and hostname as `getCookies` leaves them), and refresh an open list. |
| PageCookies.Put | content.js:263 | Assigning a property puts the new pair in the object. Every other pair is from the old object. |
| PageCookies.PutNew | content.js:263 | A new name is added after the existing ones. |
| PageCookies.LookupPut | content.js:263 | Reading a property after the assignment gives the new value for that name and the old value for every other name. |
| PageCookies.ParseCookies | content.js:257-268 | The `forEach` loop over the `;` pieces yields the functional parse. A `decodeURIComponent` error aborts it. |
| PageCookies.ParsedAborts | content.js:260-265 | Once a piece has thrown, the parse stays aborted whatever follows. |
| PageCookies.ParseEmpty | content.js:258-259 | An empty cookie string parses to the empty object; so does a lone `;`. |
| PageCookies.SegmentPairShape | content.js:261-262 | A piece is kept exactly when, trimmed, it is a name and a value around a single `=`. So `a=b=c` and `a` are dropped. |
| PageCookies.MalformedPieceIgnored | content.js:262 | A piece that is not a single pair leaves the object as it was. |
| PageCookies.LaterPieceWins | content.js:263 | A later piece with a name already present overwrites its value and changes no other name. |
| PageCookies.ParsedStepAborts | content.js:260-265 | One more piece aborts the parse exactly when the parse had already aborted or the piece does not decode. |
| PageCookies.ParsedAbortsIff | content.js:260-265 | The parse aborts exactly when some well-formed piece's value does not decode. |
| PageCookies.InsertByIndex | content.js:272 | Inserting into the index-ordered list keeps the list sorted, adds exactly that property, and keeps every other property. |
| PageCookies.SortByIndex | content.js:272 | Array-index names are listed in ascending numeric order, with the same properties. |
| PageCookies.SortSorted | content.js:272 | Sorting a list that is already in order changes nothing. |
| PageCookies.IndexProperties | content.js:272 | `Object.entries` lists the array-index properties, and only those, in the first group. |
| PageCookies.NamedProperties | content.js:272 | `Object.entries` lists the other properties, and only those, in the second group. |
| PageCookies.Entries | content.js:272 | `Object.entries` lists every property once, and only those. |
| PageCookies.EntriesOrder | content.js:272 | Index names come first, in ascending order, and the other names follow. |
| PageCookies.EntriesIdempotent | content.js:272 | Listing the entries of an object built in entry order changes nothing. |
| PageCookies.EntriesUnique | content.js:272 | No name is listed twice. |
| PageCookies.SegmentOfPair | content.js:261-263 | A formatted `name=value`, with or without the space after `; `, reads back as the same property. |
| PageCookies.ParsedPlain | content.js:260-265 | The pieces of a list with unique names, read back piece by piece, rebuild that list. |
| PageCookies.FormatParseRoundTrip | content.js:257-273 | Take an object with unique names whose names and values contain no `;` or `=`, have no surrounding white space, decode to themselves, and are not `__proto__`. Formatting it and parsing the result gives back its entries in `Object.entries` order, and formatting those entries gives the same text. |
| PageAgent.CopyNotice | content.js:72-113 | The copy ends with "no cookies" (info) exactly for an empty cookie string. It ends with success exactly when `writeText` resolves or the fallback copy command returns true. Otherwise it reports an error: the manual-copy text, or the prefix plus the exception's message. |
| PageAgent.Copied | content.js:72-113 | The page's cookie string reaches the clipboard exactly when the notice is a success. |
| PageAgent.Page.constructor | content.js:10-11 | Before the script runs there is no button, the flag is clear, and there is no notification. |
| PageAgent.Page.RunScript | content.js:4-5 | A run sets the page-global guard. Running again changes nothing. |
| PageAgent.Page.CreateFloatingButton | content.js:14-61 | Afterwards there is exactly one button. It does nothing when a button already exists. |
| PageAgent.Page.RemoveFloatingButton | content.js:64-69 | Afterwards there is no button. |
| PageAgent.Page.ShowButton | content.js:193-199 | Afterwards the flag is set. When it was already set nothing changes; otherwise the button exists and matches the flag. |
| PageAgent.Page.HideButton | content.js:201-207 | Afterwards the flag is clear and there is no button. When the flag was already clear nothing changes. |
| PageAgent.Page.ShowNotification | content.js:116-178 | The existing notification is removed before the new one is appended. Exactly one notification is then on the page. |
| PageAgent.Page.FadeTimer | content.js:167-170 | After 3 s the notification starts to fade, if it is still on the page. |
| PageAgent.Page.RemoveTimer | content.js:171-175 | 300 ms later the notification leaves the page, if it is still there. A newer notification is not touched. |
| PageAgent.Page.CopyPageCookies | content.js:72-113 | The copy protocol: the notice that `CopyNotice` names is shown, and the copied text is what `Copied` says. |
| PageAgent.Page.Dispatch | content.js:181-217 | Every message gets exactly one reply. `getCookies` answers the cookie string and hostname. The two button actions and the copy action answer success. Any other action answers the "unknown action" error. No listener exists before the script runs. `showFloatingButton` creates the button when the flag was down. `copyPageCookies` leaves exactly its copy notice on the page. Other actions leave the notices alone. |
| PageAgent.Page.KeyDown | content.js:220-240 | Ctrl+Shift+C copies. Ctrl+Shift+F flips the flag, creates or removes the button accordingly, and shows which way it went. Ctrl+Shift+C leaves exactly its copy notice on the page. Only these two keys are consumed, and every other key changes nothing. |
| PageAgent.Page.ClickButton | content.js:56-58 | Clicking the button copies the page's cookies, and the copy's notice (`CopyNotice`) is then the only one on the page. |
| PageAgent.Page.Unload | content.js:252-254 | `beforeunload` removes the button but leaves the visibility flag as it was. |
| PageAgent.ToggleTwice | content.js:228-239 | From a synced page, two Ctrl+Shift+F presses restore both the flag and the button, without a duplicate. The notice on the page is the second press's. |
| PageAgent.ToggleTwiceAfterUnload | content.js:228-254 | After `beforeunload` the page is not synced: two Ctrl+Shift+F presses end with the flag set, exactly one button, and the "shown" notice. |
| PageAgent.ShowAfterUnload | content.js:252-254 | After `beforeunload`, `showFloatingButton` finds the flag still set and does not bring the button back. |
| Background.FilterFor | background.js:53-65 | A truthy `domain` selects the domain filter. Otherwise a truthy `url` selects the URL filter with that url, otherwise the active tab's truthy url selects the URL filter with the tab's url. When there is none of them, no filter is chosen. |
| Background.FilterPrecedence | background.js:53-65 | Once a field earlier in that order is truthy, the later ones (the url, the active tab) do not affect the filter. |
| Background.HandleGetCookies | background.js:48-79 | The answer is the store's cookies for the chosen filter, with `count` equal to their number. An empty success is returned when there is no filter. The exception's message is returned when the store rejects. |
| Background.NoTargetEmpty | background.js:53-71 | With no domain, no url and no tab url, the answer is `success:true` with an empty list, whatever the store holds. |
| Background.HandleCopyToClipboard | background.js:82-99 | Always refuses, whatever the text, with the "copy in the popup" message. |
| Background.HandleGetTabInfo | background.js:102-131 | With no tab: a failure with the "no tab information" message. A URL that does not parse: the exception's message. Otherwise success with the id, url and title, `domain` = hostname, and the protocol. |
| Background.OnMessage | background.js:25-45 | The listener returns `true` (channel kept open) exactly for `getCookies`, `copyToClipboard` and `getTabInfo`. Any other action is refused at once with the "unknown message type" error. `getCookies`, `copyToClipboard` and `getTabInfo` are answered by `HandleGetCookies`, `HandleCopyToClipboard` and `HandleGetTabInfo`. Only `getCookies` and `getTabInfo` can succeed. |
| Background.CookieCountMatches | background.js:67-71 | A successful `getCookies` answer has `count` equal to the number of cookies it carries. |
| Background.OnMessageExternal | background.js:163-168 | External messages are always refused. |
| Background.FormatCookieStringAgrees | background.js:171-173 | The worker's `formatCookieString` equals the popup's `formatCookiesAsString` for every list. |
| Background.LabelPattern | background.js:177 | The label part of the pattern matches exactly a DNS label: 1–63 letters, digits or hyphens, with no hyphen at either end. |
| Background.LabelsSound | background.js:177 | Every string the pattern accepts splits on `.` into DNS labels. |
| Background.LabelsComplete | background.js:177 | Every string that splits on `.` into DNS labels is accepted by the pattern. |
| Background.ValidDomainGrammar | background.js:176-179 | `isValidDomain` holds exactly when every `.`-separated piece is a DNS label. |
| Background.ValidDomainShape | background.js:176-179 | An accepted name is non-empty, starts and ends with a letter or digit, and has no two neighbouring dots. So the empty string, a leading or trailing dot and an empty label are all rejected. |

## Left out

- The cookie store is not modelled as state. `getAll`, `remove` and `set` are answers given as inputs. So "set, then list, and the cookie is there" is not stated: it depends on the store.
- The `URL` constructor, `decodeURIComponent`, `Date.now()` and `toLocaleString()` are parameters of the model (`Host.parseUrl`, `decode`, `nowMs`, `Host.localeDate`).
- The clipboard is an outcome (`Clipboard`): whether `writeText` resolves, and how the copy command ends. The text in the clipboard is only what is handed to it.
- A rejection of the active-tab query itself is not modelled. `Host.activeTab` is the tab it resolves with, or none.
- The clear handler queries the active tab again after confirmation (popup.js:231). It never reads the result, so that query is not modelled.
- Asynchronous interleaving is not modelled. Each handler runs to its end before the next event. In the page agent, `copyPageCookies` answers before its copy finishes; the model does the copy first.
- DOM rendering, styling, hover effects, the button and notification markup, and the confirmation dialog's text are not modelled. The user's answer to the dialog is the `confirmed` parameter.
- The status line hiding after 3 s and the key hint reverting after 1 s are not modelled. The notification's two timers are modelled as events (`FadeTimer`, `RemoveTimer`), without their delays.
- The error texts the popup builds from `error.message` are not modelled. Those statuses are tags (`FetchFailed`, `ClearFailed`, `SaveFailed`).
- The logging-only listeners are not modelled: `onInstalled` (and its welcome tab), `tabs.onUpdated`, `tabs.onActivated`, `action.onClicked`, `onSuspend`, and the page-load logging. The popup's `onActivated` refresh of the domain and count is not modelled either.
- `isValidUrl` is not modelled (background.js:182-189): it only wraps the `URL` constructor, which is a parameter here.
- Strings are sequences of Unicode scalar values. JavaScript's UTF-16 code units, including lone surrogates, are not modelled.
- Panel.CookiePanel.CopyAll: uses the corrected copy helper. With `Clipboard(false, CommandRefused)` the popup as written reports a successful copy and shows no text for manual copying; the model reports the failure and shows the text (see Findings).
- Panel.CookiePanel.CopyDetailed: the same as `CopyAll`, for the detailed format.
- Panel.CookiePanel.CopyKey: uses the corrected copy helper. With `Clipboard(false, CommandRefused)` the popup as written reports the key as copied; the model reports the failure (see Findings).
- PanelRules.ParseInt: digit strings are read as exact integers. The floating-point rounding of very long digit strings, and an expiry arithmetic large enough to lose precision, are not modelled.
- PanelRules.RecordShape: expiration dates are whole seconds. The fractional seconds the store can report are not modelled.

## Findings

| source | as written | input that shows it | evidently intended | confidence | as-written member | corrected member |
|---|---|---|---|---|---|---|
| popup.js:86-88 | The textarea fallback ignores the result of `document.execCommand('copy')` and returns `true` unless something throws. | `writeText` rejects and `execCommand('copy')` returns `false`. The popup reports a successful copy, and does not show the text for manual copying. | Succeed only when the copy command reports success, as the page agent's copy does (content.js:100-107). | high; not executed | PanelRules.CopyToClipboardAsWritten, shown by PanelRules.RefusedCopyReportedAsWritten | PanelRules.CopyToClipboard, related to the as-written helper by PanelRules.CopyHelpersAgree and used by every popup copy |
