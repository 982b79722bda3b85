# Love chest: daily unlock, message draw and storage, in Dafny

This project models the core of the love chest, a web page with a chest that opens once per calendar day and shows one message from a fixed pool. The parts modelled are:

- the message selector of `js/messages.js`. It draws among all pool indices except the one drawn last, and remembers the drawn index.
- the chest state machine of `js/chest.js`. It restores or resets the chest on page load. A click re-shows the day's saved message, or runs the open path, which draws a message and records it.
- the typed storage helpers of `js/storage.js`.
- the error classification and the throwing wrappers of `js/utils/errorHandling.js`.

Everything is a pure function over values:

- `localStorage` is a `Storage` value: a `map<string, string>` plus two faults (`local_storage.dfy`). The read fault is thrown by every `getItem` and `removeItem` when storage cannot be accessed at all. The write fault is thrown by every `setItem`, as when the quota is exhausted. A full quota does not make `removeItem` throw.
- "today" is an opaque day string.
- `Math.random()` is a `real` in [0, 1).
- The open animation is reduced to its outcome, `Chest.Reveal`. It records whether the open-chest picture loaded with its `chest-trigger`, the random number of the draw, and the day string when the message appears. That string comes from a second `new Date()`, taken about two seconds after the click.
- When a handler throws, the step records the error. Changes made before the throw are kept, and the statements after it do not run.

Files:

| file | module | models |
|---|---|---|
| wrappers.dfy | `Wrappers` | `Option`, `Result` |
| js.dfy | `Js` | thrown errors, `parseInt` (section 19.2.5 of ECMA-262), integer-to-string |
| json.dfy | `Json` | `JSON.stringify` of a string array (section 25.5.2.3 of ECMA-262) and a parser for that text |
| local_storage.dfy | `LocalStorage`, `Keys` | `localStorage`, the storage key names |
| error_handling.dfy | `ErrorHandling` | js/utils/errorHandling.js |
| storage.dfy | `StorageHelpers` | js/storage.js |
| messages.dfy | `Messages` | js/messages.js |
| chest.dfy | `Chest` | js/chest.js |

Where the code's behaviour is easy to misread, the model follows the code:

- The comment above `getDailyMessage` promises no repeat until every message has been shown. The code only avoids an immediate repeat (`Messages.GetDailyMessage`, `Chest.NextDayDrawsAnotherMessage`).
- `js/chest.js` neither re-draws when today's record lacks the open flag nor keeps a session-only open state when storage writes fail:
  - A same-day record without the open flag stays locked, and clicking it draws nothing (`Chest.SameDayWithoutFlagStaysLocked`).
  - A failing write ends the open path before the button is disabled (`Chest.FailedCommitKeepsButton`).
  - Unreadable storage stops the page before the click listener is attached (`Chest.UnreadableStorageLeavesChestInert`).

`js/storage.js` and `js/messages.js` both declare `getLastMessageIndex` and `setLastMessageIndex` as global functions. When the scripts share one global scope, the later declaration wins. The selector and the chest use the `js/messages.js` versions, which are in effect when that file loads after `js/storage.js`; the offline cache list names them in that order. The two versions differ on text that is not the canonical decimal form of an index:

- `""`: `js/storage.js` reads −1; `js/messages.js` reads NaN.
- `"0x3"`: `js/storage.js` reads 3; `js/messages.js` reads 0.

## Model

| member | source | states |
|---|---|---|
| Js.ParseIntNumberToString | js/messages.js:26-37 | Writing a safe integer with `toString` and reading it back with `parseInt`, with or without radix 10, returns the integer. This covers 0 and negative values. |
| Json.ParseStringify | js/storage.js:6-11 | Parsing the JSON text that stringify writes for an array of strings gives the same array back. This includes strings with quotes, backslashes and control characters. |
| ErrorHandling.DomError | js/utils/errorHandling.js:4-9 | A `DOMError` has the name "DOMError" and keeps the given message. |
| ErrorHandling.StorageError | js/utils/errorHandling.js:11-16 | A `StorageError` has the name "StorageError" and keeps the given message. |
| ErrorHandling.AssetError | js/utils/errorHandling.js:18-23 | An `AssetError` has the name "AssetError" and keeps the given message. |
| ErrorHandling.UserMessage | js/utils/errorHandling.js:30-37 | "DOMError", "StorageError" and "AssetError" each select their own text. Every other name selects the generic "Error" text. The result is always one of the four table entries. |
| ErrorHandling.HandleError | js/utils/errorHandling.js:26-38 | Returns the fallback unchanged, with `null` when none is given. Shows the text selected for the error's name. |
| ErrorHandling.CustomErrorsSelectOwnText | js/utils/errorHandling.js:4-38 | An error built by each custom class, and a plain `Error`, is reported with its own table text. |
| ErrorHandling.GetElement | js/utils/errorHandling.js:69-75 | Returns the element exactly when the id exists. Otherwise it throws a `DOMError` whose message names the id. |
| ErrorHandling.SafeGetItem | js/utils/errorHandling.js:79-85 | Returns the stored value, or null when the key is absent. A failing read becomes a `StorageError` that carries the original message. |
| ErrorHandling.SafeSetItem | js/utils/errorHandling.js:87-93 | Either stores the value, changing no other key, or throws a `StorageError`. It throws exactly when writes fail. |
| ErrorHandling.SafeRemoveItem | js/utils/errorHandling.js:95-101 | Either removes only the given key or throws a `StorageError`. It throws exactly when storage cannot be accessed, not when only writes fail. |
| ErrorHandling.SafeStorageFailuresAreStorageErrors | js/utils/errorHandling.js:79-101 | No failure of the safe wrappers has any kind other than `StorageError`, so `handleError` reports each one with the storage text. |
| StorageHelpers.GetMessages | js/storage.js:6-8 | Returns [] when nothing is saved. It throws exactly when the read throws. |
| StorageHelpers.SaveMessages | js/storage.js:10-12 | Writes only the `dailyLoveChest` key. It fails exactly when writes fail. |
| StorageHelpers.MessagesRoundTrip | js/storage.js:6-12 | `getMessages` after `saveMessages(list)` returns the same list. |
| StorageHelpers.GetLastOpenedDate | js/storage.js:14-16 | The getter as written. It finds a date only when the key `lastOpened` is stored. |
| StorageHelpers.GetLastOpenedDateCorrected | js/storage.js:14-16 | The corrected getter. It finds a date exactly when `lastOpenedDate` is stored. |
| StorageHelpers.SetLastOpenedDate | js/storage.js:35-37 | The effective second declaration. It writes the date under `lastOpenedDate`, not `lastOpened`, and changes no other key. |
| StorageHelpers.CanOpenChest | js/storage.js:23-32 | False exactly when the stored `lastOpenedDate` is non-empty and equal to today. An absent or empty date means true. |
| StorageHelpers.SetLastOpenedDateClosesChest | js/storage.js:23-37 | After `setLastOpenedDate(today)`, `canOpenChest()` is false. |
| StorageHelpers.LastOpenedDateNotReadBack | js/storage.js:14-37 | Counterexample: a date written by the effective setter is not found by `getLastOpenedDate` as written. |
| StorageHelpers.LastOpenedDateRoundTrip | js/storage.js:14-37 | The corrected getter reads back the date the effective setter wrote. |
| StorageHelpers.GetLastMessageIndex | js/storage.js:40-43 | Returns −1 when the key is absent or empty. It throws exactly when the read throws. |
| StorageHelpers.SetLastMessageIndex | js/storage.js:46-48 | Writes only `lastMessageIndex`. It fails exactly when writes fail. |
| StorageHelpers.LastMessageIndexRoundTrip | js/storage.js:40-48 | `getLastMessageIndex` after `setLastMessageIndex(n)` returns n for every safe integer, 0 included. |
| StorageHelpers.GetLastMessage | js/storage.js:51-53 | Returns "" when nothing is stored. It throws exactly when the read throws. |
| StorageHelpers.SetLastMessage | js/storage.js:56-58 | Writes only `lastShownMessage`. It fails exactly when writes fail. |
| StorageHelpers.LastMessageRoundTrip | js/storage.js:51-58 | `getLastMessage` after `setLastMessage(m)` returns m. |
| Messages.GetLastMessageIndex | js/messages.js:24-32 | Returns −1 when the read throws or nothing is stored. |
| Messages.SetLastMessageIndex | js/messages.js:35-41 | When writes succeed, the index can be read back and no other key changes. A failing write is swallowed and leaves storage as it was. |
| Messages.AvailableIndices | js/messages.js:49-54 | Every candidate is a pool index different from the last index. There is one candidate fewer than the pool size when the last index is in range, and as many as the pool size otherwise. |
| Messages.AvailableIndicesAreAllOthers | js/messages.js:49-54 | Every pool index other than the last one is a candidate, and the candidates are strictly ascending. |
| Messages.CollectAvailable | js/messages.js:49-54 | The collecting loop builds exactly the candidate list. |
| Messages.Candidates | js/messages.js:56-59 | The list drawn from is the available indices whenever any exist. Otherwise it is every pool index. It is non-empty for every non-empty pool and holds only pool indices. |
| Messages.RandomPosition | js/messages.js:62 | `Math.floor(random * length)` is a valid position in the candidate list. |
| Messages.SelectMessage | js/messages.js:44-69 | The drawn index is in the pool and the returned text is the pool entry at that index. With at least two entries it is never the stored last index. Storage afterwards holds the drawn index, or is unchanged when writes fail. |
| Messages.GetDailyMessage | js/messages.js:3-69 | The same guarantees for the seventeen love messages. Here the drawn index never equals the stored last index. |
| Messages.GetRandomLoveMessage | js/messages.js:72-74 | Returns exactly what `getDailyMessage` returns. |
| Messages.NoValidHistoryKeepsEveryIndex | js/messages.js:49-59 | A last index that is NaN or out of range excludes nothing: the candidates are every pool index. |
| Messages.UnreadableHistoryKeepsEveryIndex | js/messages.js:24-54 | The candidates are every pool index when the stored index is absent, unreadable, NaN, negative or at least the pool size. |
| Messages.ResetOnlyForExhaustedPool | js/messages.js:56-59 | The reset to every index happens only for an empty pool, or for a one-entry pool whose only index is the excluded one. |
| Messages.LoveMessagesNeverReset | js/messages.js:3-59 | With the seventeen-entry pool at least sixteen candidates remain, so the reset branch never runs. |
| Messages.FractionDrawsPosition | js/messages.js:62 | The random number k/length draws position k. |
| Messages.EveryCandidateCanBeDrawn | js/messages.js:61-63 | Every candidate is drawn by some random number. |
| Messages.LoveMessagesAreNonEmpty | js/messages.js:3-21 | No love message is the empty string. |
| Chest.ShowSavedMessage | js/chest.js:105-114 | Shows the saved message only when it is stored and non-empty. Otherwise the view is unchanged. It never writes and never draws. |
| Chest.LoadChestState | js/chest.js:78-103 | The chest is restored open, with the button disabled, exactly when `lastOpenedDate` is today and `chestOpen` is "true". With today's date stored, storage is not changed. It throws exactly when storage cannot be read, and then leaves everything as it was. |
| Chest.CommitOpen | js/chest.js:64-66 | Records the date, the message and the open flag. It fails exactly when writes fail. |
| Chest.Disable | js/chest.js:68-70 | The button is left disabled with the come-back label, and the lid and message are kept. |
| Chest.OpenChestWithAnimation | js/chest.js:28-76 | The open chest is always shown. A message is drawn exactly when the trigger is found, and it is never the last one drawn. The drawn message is shown. When writes succeed the button ends disabled. |
| Chest.HandleChestClick | js/chest.js:16-26 | On the recorded day it only re-shows the saved message: no draw and no write. A draw happens only on another day, and only when the trigger is found. |
| Chest.PageLoad | js/chest.js:1-14 | The click listener is attached exactly when `loadChestState` does not throw, which is exactly when storage can be read. A store that only rejects writes still gets the listener. |
| Chest.Click | js/chest.js:14-26 | A click on a page without a listener, or on a button disabled at js/chest.js:70 or :88, changes nothing. A click that changes storage leaves the button disabled. |
| Chest.CompletedOpenIgnoresLaterClicks | js/chest.js:14-70 | After a completed opening the button is disabled. Every later click, on any day, leaves the page unchanged until it is loaded again. |
| Chest.CompletedOpenCommitsState | js/chest.js:16-70 | A completed open on another day leaves `lastOpenedDate` set to the reveal day, `currentMessage` set to the drawn message, `chestOpen` set to "true" and the drawn index remembered. Every other key keeps its value, and no other key is added. The message is shown and the button is disabled. |
| Chest.CommittedKeys | js/chest.js:64-66 | The commit writes keep the index the draw stored and every key the chest does not use. |
| Chest.OpenWithoutTriggerChangesNothing | js/chest.js:28-37 | Without the trigger the chest is shown open, but nothing is drawn, written or disabled. |
| Chest.FailedCommitKeepsButton | js/chest.js:54-70 | When writes throw, the drawn message is shown but nothing is recorded. The button keeps its state. |
| Chest.StaleRecordIsClearedOnLoad | js/chest.js:92-101 | On load with another date, exactly `chestOpen` and `currentMessage` are removed, also when writes fail. `lastOpenedDate` and `lastMessageIndex` are kept, and the view is the locked one. |
| Chest.SameDayWithoutFlagStaysLocked | js/chest.js:78-103 | With today's date but no open flag, load locks the chest with an enabled button and leaves storage untouched. A click that day draws nothing. |
| Chest.SecondClickSameDayShowsSameMessage | js/chest.js:16-26 | A second click on the day of an opening draws nothing, writes nothing and shows the same message. |
| Chest.ReloadSameDayRestoresOpenChest | js/chest.js:78-90 | Reloading on the day of an opening restores the open chest with the same message and a disabled button. |
| Chest.NextDayDrawsAnotherMessage | js/chest.js:55-101 | An opening on one day, then a reload and an opening on a later day, draws two different messages in a row. |
| Chest.UnreadableStorageLeavesChestInert | js/chest.js:1-14 | With unreadable storage, the page never attaches the listener and clicks do nothing. |

## Left out

- DOM work, styling and timing: class toggles, inline styles, the sparkles, `setTimeout` and `requestAnimationFrame` delays, and the SVG `beginElement` call. The view is reduced to lid, message and button.
- The element lookups at js/chest.js:5-9 are assumed to succeed.
- A `load` listener added again by a repeated click is not modelled. The outcome of one animation is an input.
- `showErrorMessage` (js/utils/errorHandling.js:42-66) only inserts and hides a DOM element. The model records the text shown.
- Console logging.
- serviceWorker.js and js/app.js are asynchronous browser plumbing for offline caching.
- js/background.js is a cosmetic background drawn from floating-point random positions.
- `Math.random()` is an exact real in [0, 1), so floating-point rounding of the product is not modelled.
- `Date.prototype.toDateString()` is an opaque string.
- The first `setLastOpenedDate` (js/storage.js:18-20) is shadowed by the second declaration and never runs.
- A storage fault is fixed for the whole storage value. A failure that starts halfway through a sequence of writes is not modelled.
- StorageHelpers.GetMessages: stored text that is not a compact JSON array of strings gives `NotAList`. Such text includes whitespace between tokens, other JSON values, invalid JSON, and `\u` escapes of surrogates. Whether `JSON.parse` throws on it or what other value it yields is not modelled.
- StorageHelpers.SetLastMessageIndex: covers safe integers only. Other argument values, which `setItem` would convert with `String(...)`, are not modelled.
- Js.ParseInt: the result is an unbounded integer, so Number rounding above 2^53 and `Infinity` are not modelled. Rounding keeps such values far outside any pool index.
- Messages.SelectMessage: requires a non-empty pool shorter than 2^32 entries. The page's pool is a constant with seventeen entries, and on an empty pool the code would call `toString` on `undefined`.
- ErrorHandling.UserMessage: names that are properties of every JavaScript object, such as "toString", find an inherited function in the lookup table. This is not modelled; those names get the generic text.
- ErrorHandling.HandleError: an explicit `null` fallback and an omitted one are the same value (`None`).
- The chest's `if (message)` guard (js/chest.js:56) has no branch in the model. It always passes, because every love message is non-empty (`Messages.LoveMessagesAreNonEmpty`).

## Findings

| source | as written | input that shows it | evidently intended | confidence | as-written member | corrected member |
|---|---|---|---|---|---|---|
| js/storage.js:14-37 | `getLastOpenedDate` reads the key `lastOpened`. The `setLastOpenedDate` in effect, the second declaration, writes `lastOpenedDate`. | On empty storage, `setLastOpenedDate("Thu Oct 08 2026")` followed by `getLastOpenedDate()` returns `null`. | The getter reads `lastOpenedDate`, the key the setter, `canOpenChest` and js/chest.js use. | medium; not executed | StorageHelpers.LastOpenedDateNotReadBack | StorageHelpers.LastOpenedDateRoundTrip |
