# Announcement read-tracker of the site header

This project models the logic of the web console's modern header bar
(`HeaderBarModern.js`): the announcement read-tracker and the small rendering
decisions that sit next to it.

- **Keys.** An announcement's key is its publish date (empty when absent), a
  dash, then the first 30 characters of its content (empty when absent).
- **Unread computation.** `calculateUnreadCount` and `getUnreadKeys` filter the
  current announcements by "key not in the read-set". The read-set is the list
  of keys stored as JSON under the `localStorage` entry `notice_read_keys`.
- **Acknowledge on close.** `handleNoticeClose` hides the notice. If there are
  announcements, it merges the stored keys with the keys of all of them. The
  merge keeps first occurrences, in order (`Array.from(new Set(...))`). It
  writes the result back and resets the unread count to 0.
- **Header decisions.** These are the main navigation list (the docs entry only
  when a docs link is configured) and the console link's redirect to `/login`
  when no user is signed in. They also cover the user area (the register button
  only outside self-use mode), the site-mode tag, and the notice modal's default
  tab and the bell badge, both chosen by the unread count.

`localStorage` is an explicit state value (`Js.Storage`, a map from entry name
to stored text) passed in and returned. The header's tracker state
(`ReadTracker.Header`) holds the storage, the displayed unread count and the
notice visibility. Each handler is a function from one state to the next. A
handler returns `Threw` when the JavaScript would let an exception escape.

Stored text is modelled as what `JSON.parse` makes of it: malformed, or a
decoded JSON value. The code guards only against a missing entry, malformed
text and falsy values (`|| []`), and the model keeps exactly those guards
(`ReadTracker.SoftFailureReadsAsEmpty`). Non-array content is not read as
empty. A stored string is iterated as its characters
(`ReadTracker.StoredStringReadsAsCharacters`). A stored `true`, non-zero number
or object makes the `Set` construction or the spread throw a TypeError outside
the `try` (`ReadTracker.NonArrayValueThrows`).

Modules: `Seqs` (duplicate-freedom, order-preserving filtering, first-occurrence
deduplication and the `Set` insertion loop), `Js` (optional fields, truthiness,
JSON values, iteration, storage), `ReadTracker` (keys, unread computation, the
open/close/refresh handlers), `HeaderBar` (status fields, navigation, user area,
mode tag, tab and badge).

## Model

| member | source | states |
|---|---|---|
| Seqs.Dedup | web/src/components/layout/HeaderBarModern.js:313 | the merged list holds exactly the elements of its input, with no element twice |
| Seqs.DedupFirstOccurrenceOrder | web/src/components/layout/HeaderBarModern.js:313 | the merged list orders elements by their first occurrence in the input, as a `Set` iterates in insertion order |
| Seqs.ArrayFromSet | web/src/components/layout/HeaderBarModern.js:313 | building a `Set` element by element and listing it gives the first-occurrence deduplication of the input |
| Seqs.DedupAbsorbs | web/src/components/layout/HeaderBarModern.js:313 | appending elements that already occur leaves the deduplicated list unchanged |
| Seqs.DedupIdempotent | web/src/components/layout/HeaderBarModern.js:313 | deduplicating an already deduplicated list changes nothing |
| ReadTracker.AnnouncementKey | web/src/components/layout/HeaderBarModern.js:216 | a key starts with the date (or empty), has a dash right after it, and is one character longer than date and content prefix together |
| ReadTracker.ContentPrefix | web/src/components/layout/HeaderBarModern.js:216 | the content part of a key has at most 30 characters and is a prefix of the content (empty when absent) |
| ReadTracker.KeyShape | web/src/components/layout/HeaderBarModern.js:216 | a key is the date (or empty), then `-`, then the first min(30, length) content characters (or empty), with the matching length |
| ReadTracker.KeyCollision | web/src/components/layout/HeaderBarModern.js:216 | announcements with the same date and the same 30-character content prefix share a key |
| ReadTracker.KeyTruncationCollides | web/src/components/layout/HeaderBarModern.js:216 | two distinct announcements that differ only after 30 content characters get the same key |
| ReadTracker.KeySeparatorCollides | web/src/components/layout/HeaderBarModern.js:216 | the unescaped dash lets announcements with different dates produce the same key |
| ReadTracker.MissingFieldsReadAsEmpty | web/src/components/layout/HeaderBarModern.js:216 | a missing date or content gives the same key as an empty one; with both missing the key is `-` |
| ReadTracker.Keys | web/src/components/layout/HeaderBarModern.js:239 | one key per announcement, in list order |
| ReadTracker.ReadSet | web/src/components/layout/HeaderBarModern.js:226 | the read-set contains exactly the loaded keys |
| ReadTracker.ReadStoredKeys | web/src/components/layout/HeaderBarModern.js:220-226 | a missing or malformed entry and a falsy parsed value read as no keys; a stored array reads as its elements and a stored string as its characters; loading throws exactly when the parsed value is truthy but neither an array nor a string |
| Js.ParseOrEmpty | web/src/components/layout/HeaderBarModern.js:221-225 | a missing entry, malformed text and a falsy parsed value all become an empty array; a truthy parsed value is kept as it is, unchecked |
| Js.Iterate | web/src/components/layout/HeaderBarModern.js:226 | iterating a truthy value (the only kind that reaches it): an array visits its elements and a string its characters; any other value throws |
| ReadTracker.Unread | web/src/components/layout/HeaderBarModern.js:227 | an announcement is kept exactly when it is in the list and its key is not in the read-set |
| ReadTracker.CalculateUnreadCount | web/src/components/layout/HeaderBarModern.js:218-228 | 0 for an empty list without reading storage; otherwise throws exactly when loading throws, and never exceeds the number of announcements |
| ReadTracker.GetUnreadKeys | web/src/components/layout/HeaderBarModern.js:230-240 | `[]` for an empty list without reading storage; otherwise throws exactly when loading throws, and no returned key is a read key |
| ReadTracker.NoticeOpen | web/src/components/layout/HeaderBarModern.js:300-302 | opening shows the notice and changes nothing else |
| ReadTracker.Refresh | web/src/components/layout/HeaderBarModern.js:242-244 | the displayed count becomes the computed unread count; storage and visibility are untouched |
| ReadTracker.NoticeClose | web/src/components/layout/HeaderBarModern.js:304-317 | close always hides the notice; it throws exactly when there are announcements and loading throws, and then nothing else changes; otherwise the count becomes 0; an empty list leaves storage unchanged; no other storage entry ever changes |
| ReadTracker.UnreadKeysAreUnreadFilteredKeys | web/src/components/layout/HeaderBarModern.js:239 | filtering the announcements and then taking keys equals taking all keys and then dropping the read ones |
| ReadTracker.CountMatchesUnreadKeys | web/src/components/layout/HeaderBarModern.js:218-240 | count and key list throw together; otherwise the count is the list's length, and the list is the keys in input order minus the read ones |
| ReadTracker.UnreadKeyMembership | web/src/components/layout/HeaderBarModern.js:238-239 | an announcement's key is listed as unread if and only if it is not in the read-set |
| ReadTracker.NothingReadAllUnread | web/src/components/layout/HeaderBarModern.js:226-239 | with an empty read-set, the unread keys are all the keys and the count is the number of announcements |
| ReadTracker.SoftFailureReadsAsEmpty | web/src/components/layout/HeaderBarModern.js:220-226 | a missing or malformed entry, or a falsy parsed value, reads as no keys, never throws and leaves every announcement unread |
| ReadTracker.NonArrayValueThrows | web/src/components/layout/HeaderBarModern.js:222-227 | a stored `true`, non-zero number or object is not guarded: with announcements present both read sites throw |
| ReadTracker.StoredStringReadsAsCharacters | web/src/components/layout/HeaderBarModern.js:222-227 | a stored JSON string is read as its characters, so the string `-` marks an announcement with neither field as read |
| ReadTracker.NoUnreadIffAllRead | web/src/components/layout/HeaderBarModern.js:227 | the count is 0 if and only if every announcement's key is in the read-set |
| ReadTracker.ReadBackWrittenKeys | web/src/components/layout/HeaderBarModern.js:314 | the list close writes is what the next load reads |
| ReadTracker.CloseMergesReadKeys | web/src/components/layout/HeaderBarModern.js:306-314 | with announcements, close stores exactly dedup(old keys ++ current keys): every old key, every current key, nothing else, no key twice |
| ReadTracker.CloseIdempotent | web/src/components/layout/HeaderBarModern.js:304-317 | closing twice with the same announcements gives the same state and outcome as closing once |
| ReadTracker.CloseLeavesNothingUnread | web/src/components/layout/HeaderBarModern.js:313-316 | after a completed close, recomputing over the same announcements gives count 0 and no unread keys, so the refresh keeps the state |
| ReadTracker.CloseKeepsOldReadKeys | web/src/components/layout/HeaderBarModern.js:313 | a completed close never removes a read key |
| ReadTracker.MaintenanceUnreadScenario | web/src/components/layout/HeaderBarModern.js:216-240 | with nothing stored, one announcement dated 2024-01-01 with content "Maintenance window" is unread with key `2024-01-01-Maintenance window` |
| ReadTracker.MaintenanceAcknowledgedScenario | web/src/components/layout/HeaderBarModern.js:304-317 | after closing the notice, that announcement is no longer unread |
| HeaderBar.MainNavLinks | web/src/components/layout/HeaderBarModern.js:246-281 | home, console, pricing, then docs only when the docs link is non-empty, then contact; all are router links |
| HeaderBar.DocsEntryIsTheOnlyDifference | web/src/components/layout/HeaderBarModern.js:262-270 | a configured docs link inserts exactly the docs entry between pricing and contact |
| HeaderBar.MainNavKeysDistinct | web/src/components/layout/HeaderBarModern.js:246-281 | the item keys used as element keys are pairwise distinct |
| HeaderBar.LinkTarget | web/src/components/layout/HeaderBarModern.js:150-168 | external links point to their href; the console router link points to `/login` when no user is signed in; every other router link keeps its path |
| HeaderBar.RenderLink | web/src/components/layout/HeaderBarModern.js:150-179 | an external link renders as an anchor to its href, a router link as a link to its target, both under the link's key |
| HeaderBar.ConsoleRedirectsOnlyWhenSignedOut | web/src/components/layout/HeaderBarModern.js:165-168 | on the main navigation a link leads to `/login` if and only if it is the console link and no user is signed in; every other link keeps its path |
| HeaderBar.RenderNavigation | web/src/components/layout/HeaderBarModern.js:115-180 | four placeholders while loading; otherwise one entry per link in order, with the same key, kind and target |
| HeaderBar.RenderUserArea | web/src/components/layout/HeaderBarModern.js:369-504 | placeholder exactly while loading, account menu exactly for a signed-in user, and the register button exactly when loaded, signed out and not in self-use mode |
| HeaderBar.RenderModeTag | web/src/components/layout/HeaderBarModern.js:556-581 | a tag shows exactly when loaded and either mode is on; it is the self-use tag exactly in self-use mode, otherwise the demo-site tag |
| HeaderBar.DefaultNoticeTab | web/src/components/layout/HeaderBarModern.js:512 | the modal opens on the system tab if and only if the count is non-zero, otherwise on the in-app tab |
| HeaderBar.ShowsBadge | web/src/components/layout/HeaderBarModern.js:628 | the badge is shown if and only if the count is non-zero |
| HeaderBar.BadgeIffSystemTab | web/src/components/layout/HeaderBarModern.js:512 | the badge shows if and only if the modal defaults to the system tab, and is absent exactly when it defaults to the in-app tab |
| HeaderBar.CloseClearsBadge | web/src/components/layout/HeaderBarModern.js:628-652 | after a completed close there is no badge and the default tab is in-app, also after recomputing the count |
| HeaderBar.FreshAnnouncementsShowBadge | web/src/components/layout/HeaderBarModern.js:242-244 | with nothing stored, any announcement makes the recomputed count show the badge and select the system tab |
| HeaderBar.Announcements | web/src/components/layout/HeaderBarModern.js:214 | the announcement list is the status field when present and empty otherwise |
| HeaderBar.DocsLink | web/src/components/layout/HeaderBarModern.js:206 | the docs link is non-empty if and only if the status carries a non-empty docs link, and then equals it |
| HeaderBar.SelfUseMode | web/src/components/layout/HeaderBarModern.js:205 | self-use mode is on if and only if the status flag is present and true |
| HeaderBar.DemoSiteMode | web/src/components/layout/HeaderBarModern.js:207 | demo-site mode is on if and only if the status flag is present and true |
| HeaderBar.StatusDrivesHeader | web/src/components/layout/HeaderBarModern.js:205-270 | the docs entry appears if and only if a non-empty docs link is configured; registration is offered to a signed-out user if and only if self-use mode is not on; without announcements nothing is unread and closing leaves storage unchanged |

## Left out

- JSON text: a stored entry is held as its decoded value. Writing a string array with `JSON.stringify` and reading it back with `JSON.parse` is taken to give the same array.
- Stored arrays whose elements are not all strings: the model's arrays hold strings only.
- Strings are sequences of UTF-16 code units, which is what `slice(0, 30)` counts. Iterating a stored string goes by code point. The two differ only for characters outside the Basic Multilingual Plane, and that case is not modelled.
- `localStorage` itself failing: access errors inside the `try` read as no keys anyway; a failing `setItem` (quota) is not modelled.
- ReadTracker.NoticeClose: when the stored value throws, the model keeps the already-issued hide. Whether React applies that queued update after the handler throws is framework behaviour and is not modelled.
- ReadTracker.Announcement: both fields are optional strings. A present non-string date (a number, say) would be converted to text when the key is built; that case is not modelled. A present truthy non-string content has `slice` called on it before any conversion: a number or object throws a TypeError, and an array is cut to its first 30 elements and then joined with commas. Neither case is modelled. A `null` entry in the list behaves like an announcement with both fields absent.
- Link labels and all other translated text (i18n), styling, markup, skeleton sizes, the badge's `99+` overflow display: rendering only.
- Logout (an API call and navigation), language switching, theme switching with its DOM and iframe messages, the New Year fireworks, the minimum-loading timer, the mobile-menu open state: I/O, clocks and DOM effects.
- The contact page and the docs page: rendering, clipboard and window calls with no logic of their own.
- Concurrent read-modify-write of the stored read-set from two tabs: concurrency, with no guarantee made by the code.
