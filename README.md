# modern-dashboard: the dashboard's state and decision rules in Dafny

The dashboard is a Next.js admin front-end. Nearly all of it renders static
mock data. This project models the parts that hold logic:

- **Notification dropdown** (`Notifications`, from `src/components/notifications.tsx`).
  It keeps a set of read notification ids in the browser's local storage and
  merges it with the static catalog: an entry counts as read if the catalog says
  so or its id is in the set. From the merged list it derives the unread count,
  the badge text (`"9+"` from ten up), the three newest entries, and a relative
  time label for each entry. `NotificationCenter` is the component's state: the
  read ids and the store. Its methods are the mount-time load and save effects,
  `markAsRead`, and a click on a listed item.
- **Security helpers** (`Security`, from `src/lib/security.ts`).
  - `sanitizeInput` strips `<` and `>`, trims, and keeps at most 1000 characters.
  - `generateCSP` joins the policy directives, in declared order.
  - `RateLimiter` is a sliding-window counter per identifier. `canMakeRequest`
    is a method on a class whose `timestamps` map it reads and replaces.
- **Settings dialog** (`SettingsDialog`, from `src/components/settings-dialog.tsx`).
  The settings record is built by a loop over the options. The other parts are
  the single-key toggle, the switch's checked fallback, the Tab/Shift+Tab focus
  wrap, and the rules for closing on Escape and on an overlay click.
- **Calendar page** (`CalendarPage`, from `src/app/calendar/page.tsx`).
  The month grid is built by two counting loops. The page also highlights today,
  shows at most three attendee avatars with a "+N more" label, and builds the
  change text of each statistic.
- **Dashboard page** (`DashboardPage`, from `src/app/page.tsx`).
  A user's avatar initials are made by `split(' ')`, then `map(n => n[0])`,
  then `join('')`.

Shared helpers: `Text` (the decimal text of a number, with its parser, and
`Array.prototype.join` with a layout lemma) and `Wrappers` (`Option`).

Inputs that come from the browser or the runtime are parameters:
- the clock (`now`, in integer milliseconds);
- `process.env.NODE_ENV === 'development'` (`isDevelopment`);
- the text of `toLocaleDateString()` (`localeDate`, taken as is);
- the month's first weekday and its length;
- today's day of the month;
- whether `localStorage.setItem` succeeds (`writable`).

The notification catalog (`NOTIFICATIONS`) and the settings options
(`SETTINGS_OPTIONS`) are imported from `@/lib/constants`. Their definitions are
not part of this model, so both are parameters: a sequence of `Notification`
records and a sequence of `SettingsOption` records. An option's description is
left off, because it is only displayed.

Where the repository's interface contract for notifications
(`specs/001-header-notifications/contracts/notification-interface.ts`)
differs from the component, the model follows the component:
- The storage key is `"dashboard-notifications-read"`. The contract names
  `notification-read-ids`.
- With no unread entry, the component computes the badge text `"0"` but does
  not render the badge. `Badge` returns `None` for that case. The contract's
  `null` gives the same outcome.
- The component has no `markAllAsRead` and no `isNotificationRead`, so the
  model has neither.
- "Yesterday" is shown when 24 to 48 hours have elapsed (floored day count 1).
  It is not tied to the previous calendar date.
- The category is the component's closed set of five: user, report, system,
  payment, team.

## Model

| member | source | states |
|---|---|---|
| `Notifications.FormatRelativeTime` | src/components/notifications.tsx:30-42 | "Just now" when less than a minute has elapsed, including future timestamps; the locale date once two days or more have elapsed |
| `Notifications.RelativeTimeMinutes` | src/components/notifications.tsx:33-38 | when m whole minutes (1..59) have elapsed, the label is m's decimal text followed by " minute ago" for m = 1 and " minutes ago" otherwise |
| `Notifications.RelativeTimeHours` | src/components/notifications.tsx:34-39 | when h whole hours (1..23) have elapsed, the label is h's decimal text followed by " hour ago" for h = 1 and " hours ago" otherwise |
| `Notifications.RelativeTimeYesterday` | src/components/notifications.tsx:35-41 | the label is "Yesterday" exactly when between 24 and 48 hours have elapsed |
| `Notifications.Merge` | src/components/notifications.tsx:76-81 | the merged list has the catalog's length and order; entry i equals catalog entry i except that it is read iff its id is in the read set or the catalog marks it read |
| `Notifications.UnreadNotifications` | src/components/notifications.tsx:84-86 | the unread list contains exactly the merged entries that are unread, and is no longer than the merged list |
| `Notifications.UnreadNotificationsAppend` | src/components/notifications.tsx:84-86 | `filter(n => !n.isRead)` distributes over concatenation |
| `Notifications.UnreadNotificationsOne` | src/components/notifications.tsx:85 | a single entry is kept iff it is unread; with the append lemma this fixes the unread list, order and repeats included |
| `Notifications.UnreadNotificationsCount` | src/components/notifications.tsx:84-89 | the unread list has one entry per unread position of the merged list |
| `Notifications.UnreadCount` | src/components/notifications.tsx:89 | `unreadCount` is the number of positions of the merged list whose entry is unread |
| `Notifications.UnreadCountZero` | src/components/notifications.tsx:84-89 | the unread count is 0 iff every merged entry is read |
| `Notifications.UnreadCountMonotone` | src/components/notifications.tsx:79-104 | a larger read set never raises the unread count, and strictly lowers it when a catalog entry that was unread gets its id added |
| `Notifications.BadgeText` | src/components/notifications.tsx:92 | "9+" above nine; otherwise one digit whose value is the count |
| `Notifications.Badge` | src/components/notifications.tsx:118-125 | the badge is shown iff the count is positive, and then carries the badge text |
| `Notifications.BadgeExamples` | src/components/notifications.tsx:92-125 | counts 0, 1, 9, 10 and 150 give no badge, "1", "9", "9+" and "9+" |
| `Notifications.InsertByRecency` | src/components/notifications.tsx:96-97 | an insertion adds exactly that entry: the multiset grows by it and nothing else, and the length by one |
| `Notifications.InsertByRecencyNewestFirst` | src/components/notifications.tsx:96-97 | inserting into a newest-first list keeps it newest-first |
| `Notifications.InsertByRecencyStable` | src/components/notifications.tsx:96-97 | for any list, an inserted entry goes before the existing entries of its own timestamp, and the order among every timestamp's entries is kept |
| `Notifications.SortByRecency` | src/components/notifications.tsx:96-97 | the sort returns a permutation of the merged list (same multiset, same length) |
| `Notifications.SortByRecencyNewestFirst` | src/components/notifications.tsx:97 | the sorted list's timestamps never increase |
| `Notifications.SortByRecencyStable` | src/components/notifications.tsx:97 | for every timestamp, the entries with that timestamp keep their catalog order (stable sort) |
| `Notifications.WithTimestampPrefix` | src/components/notifications.tsx:98 | cutting a list short keeps, for each timestamp, a prefix of that timestamp's entries |
| `Notifications.DisplayNotifications` | src/components/notifications.tsx:95-99 | `.slice(0, 3)` of the sorted list: its first min(3, n) entries |
| `Notifications.DisplayNotificationsSize` | src/components/notifications.tsx:95-99 | the dropdown lists min(3, n) entries, newest first, each taken from the merged list; the listed and omitted entries together are the merged list |
| `Notifications.DisplayNotificationsNewest` | src/components/notifications.tsx:95-99 | no omitted entry is newer than a listed one |
| `Notifications.DisplayNotificationsStable` | src/components/notifications.tsx:95-99 | the listed entries of any timestamp are the first ones of that timestamp in catalog order |
| `Notifications.AddId` | src/components/notifications.tsx:103 | adding an id to the insertion-ordered set gives the old elements plus that id, keeps it duplicate-free, and leaves it unchanged when the id is already there |
| `Notifications.Dedup` | src/components/notifications.tsx:56 | `new Set(array)` has no duplicates and the same elements as the array |
| `Notifications.DedupDistinct` | src/components/notifications.tsx:56 | a duplicate-free list passes through `new Set` unchanged, order included |
| `Notifications.LoadedIds` | src/components/notifications.tsx:51-61 | the load yields a set only when the key is present and its value is readable, and that set is the stored ids |
| `Notifications.SaveLoadRoundTrip` | src/components/notifications.tsx:53-68 | saving the read set and loading it back gives the same ids in the same order |
| `Notifications.NotificationCenter.constructor` | src/components/notifications.tsx:45-47 | the read set starts empty and the store is untouched |
| `Notifications.NotificationCenter.Save` | src/components/notifications.tsx:64-73 | when the store accepts the write, the key holds the current read ids; when the write fails, the store is unchanged |
| `Notifications.NotificationCenter.Mount` | src/components/notifications.tsx:50-73 | after mount, the read set is what the store held (empty if absent or unreadable), and the store holds that set when writable |
| `Notifications.NotificationCenter.MarkAsRead` | src/components/notifications.tsx:102-104 | the read set becomes old ∪ {id} (unchanged if already read), it is saved, and the unread count does not rise |
| `Notifications.NotificationCenter.ClickItem` | src/components/notifications.tsx:152-156 | clicking an unread listed item appends its id to the stored id list (as `MarkAsRead` does), adds exactly that id to the read set and lowers the unread count; clicking a read item changes nothing |
| `Text.DecimalString` | src/components/notifications.tsx:92 | `toString()` of a count is a non-empty digit string without a leading zero; it has one digit iff the count is below 10 |
| `Text.DecimalStringRoundTrip` | src/components/notifications.tsx:38 | parsing the decimal text back gives the number |
| `Text.DecimalStringInjective` | src/components/notifications.tsx:38 | different counts give different texts |
| `Text.OffsetStep` | src/lib/security.ts:29 | each part of a join starts its own length plus one separator after the previous part |
| `Text.JoinSuffix` | src/lib/security.ts:29 | from part i's offset on, the join reads as the join of parts i onward |
| `Text.JoinLayout` | src/lib/security.ts:28-29 | part i appears at its offset, and a separator separates it from part i+1 |
| `Text.JoinLength` | src/lib/security.ts:28-29 | the join of no parts is empty; otherwise its length runs to the end of the last part, at its offset |
| `Security.StripAngleBrackets` | src/lib/security.ts:37 | the result contains exactly the input's characters other than `<` and `>`; input without them is unchanged |
| `Security.StripAngleBracketsAppend` | src/lib/security.ts:37 | the global replace works character by character: it distributes over concatenation |
| `Security.StripAngleBracketsOne` | src/lib/security.ts:37 | a single character is kept iff it is not `<` or `>`; with the append lemma this fixes the output, order and repeats included |
| `Security.TrimStart` | src/lib/security.ts:38 | the result is the suffix starting at the first non-whitespace character; everything dropped is whitespace |
| `Security.TrimEnd` | src/lib/security.ts:38 | the result is the prefix ending at the last non-whitespace character; everything dropped is whitespace |
| `Security.Trim` | src/lib/security.ts:38 | neither end of the result is whitespace, and an already trimmed input is unchanged |
| `Security.TrimCutsEnds` | src/lib/security.ts:38 | the trimmed string is a slice `s[a..b]` of the input with only whitespace cut before `a` and after `b`, so with `Trim`'s end conditions it is the input without its whitespace ends |
| `Security.Truncate` | src/lib/security.ts:39 | `slice(0, n)` returns a prefix of length min(n, input length) |
| `Security.SanitizeInput` | src/lib/security.ts:35-40 | the output has no `<` or `>` and is the prefix of the bracket-stripped, trimmed input of length min(1000, its length) |
| `Security.SanitizeInputClean` | src/lib/security.ts:35-40 | an input without brackets, already trimmed and at most 1000 characters long is returned unchanged |
| `Security.FilterNonEmpty` | src/lib/security.ts:13 | `filter(Boolean)` removes exactly the empty strings and keeps the rest |
| `Security.FilterNonEmptyAppend` | src/lib/security.ts:13 | `filter(Boolean)` distributes over concatenation |
| `Security.FilterNonEmptyOne` | src/lib/security.ts:13 | a single string is kept iff it is non-empty; with the append lemma this fixes the kept sources, order and repeats included |
| `Security.CspDirectives` | src/lib/security.ts:7-21 | nine directives with distinct names, none holding an empty source |
| `Security.ScriptSources` | src/lib/security.ts:9-13 | `script-src` lists `'self' 'unsafe-eval'`, plus `'unsafe-inline'` in development only, and never an empty source |
| `Security.CspOnlyScriptDiffers` | src/lib/security.ts:7-21 | every directive other than `script-src` is the same in development and production |
| `Security.RenderDirective` | src/lib/security.ts:28 | a directive renders as its name and a space, followed by its sources joined by spaces |
| `Security.GenerateCSP` | src/lib/security.ts:26-30 | no directives give an empty header; the header starts with the first directive's rendering, and is exactly that rendering for a single directive |
| `Security.GenerateCSPLayout` | src/lib/security.ts:26-30 | directive i appears at its offset in the header as its name plus its space-joined sources, followed by "; " unless it is last |
| `Security.GenerateCSPLength` | src/lib/security.ts:29 | `join('; ')` puts no separator after the last directive: the header ends exactly where the last directive's rendering, at its offset, ends |
| `Security.RenderDirectiveLayout` | src/lib/security.ts:28 | inside a directive, the name and a space come first, and source k stands at its own offset |
| `Security.InWindow` | src/lib/security.ts:73 | the filtered list holds exactly the stored times after the window start |
| `Security.InWindowAppend` | src/lib/security.ts:73 | `filter(ts => ts > windowStart)` distributes over concatenation |
| `Security.InWindowOne` | src/lib/security.ts:73 | a single stored time is kept iff it is after the window start; with the append lemma this fixes the surviving times, order and repeats included |
| `Security.InWindowCount` | src/lib/security.ts:73-75 | its length is the number of stored requests strictly after `now - windowMs` |
| `Security.Admit` | src/lib/security.ts:68-82 | a call is refused iff the in-window list already holds `maxRequests` times or more; otherwise the new entry is that list followed by `now` |
| `Security.AdmitSpec` | src/lib/security.ts:68-82 | a request is admitted iff fewer than `maxRequests` stored requests are in the window; the new entry is those requests followed by `now`, at most `maxRequests` long |
| `Security.AdmitAtFixedTime` | src/lib/security.ts:68-82 | with j requests stored at the current instant, a call is admitted iff j < `maxRequests`, and then j + 1 requests are stored |
| `Security.BurstAtFixedTime` | src/lib/security.ts:68-82 | with a frozen clock and j requests already stored at that instant, call i of a burst is admitted iff j + i < `maxRequests` |
| `Security.EleventhCallRefused` | src/lib/security.ts:63-75 | with the defaults (10 per 60000 ms) and a frozen clock, the first ten calls pass and the eleventh is refused |
| `Security.RateLimiter.constructor` | src/lib/security.ts:61-66 | the limits default to 10 requests per 60000 ms and the map starts empty |
| `Security.RateLimiter.CanMakeRequest` | src/lib/security.ts:68-83 | the answer is true iff fewer than `maxRequests` stored times for the id fall after `now - windowMs`. On false the map is unchanged: stale times are not pruned. On true only the id's entry changes, to the in-window times plus `now`, and it keeps at most `maxRequests` entries |
| `SettingsDialog.InitialSettings` | src/components/settings-dialog.tsx:16-22 | the record's keys are the option ids, and each id holds the default of the last option carrying it |
| `SettingsDialog.SettingsState.constructor` | src/components/settings-dialog.tsx:16-22 | the dialog opens with that initial record |
| `SettingsDialog.Checked` | src/components/settings-dialog.tsx:183 | a switch is on iff its id is present and set to true |
| `SettingsDialog.Toggle` | src/components/settings-dialog.tsx:105-110 | the toggled id's checked state flips (an absent id becomes true), the key set gains the id, and every other entry is unchanged |
| `SettingsDialog.ToggleTwice` | src/components/settings-dialog.tsx:105-110 | toggling a present id twice restores the record; an absent id ends stored as false; the checked state is restored either way |
| `SettingsDialog.SettingsState.HandleToggle` | src/components/settings-dialog.tsx:105-110 | the record becomes the toggle of the old one: one switch flips, all others keep their checked state |
| `SettingsDialog.FocusTrap` | src/components/settings-dialog.tsx:61-87 | focus is redirected only in an open dialog, only on Tab, and only from the last element (to the first) or, with Shift, from the first (to the last) |
| `SettingsDialog.FocusStaysInside` | src/components/settings-dialog.tsx:71-87 | with the trap, Tab moves to (a+1) mod n and Shift+Tab to (a−1) mod n, so focus never leaves the dialog's elements |
| `SettingsDialog.RequestsClose` | src/components/settings-dialog.tsx:112-157 | an open dialog closes on Escape, on the close button, and on a click whose target is the overlay itself; a closed dialog never requests a close |
| `SettingsDialog.EscapeRequestsClose` | src/components/settings-dialog.tsx:29-40 | Escape requests a close iff the dialog is open, whatever the Shift state; no other key does |
| `SettingsDialog.ChildClickKeepsOpen` | src/components/settings-dialog.tsx:112-117 | a click that bubbles up from a child does not close; a click on the overlay closes iff the dialog is open |
| `CalendarPage.GenerateCalendarDays` | src/app/calendar/page.tsx:116-130 | the grid has `firstDayOfMonth + daysInMonth` cells: empty cells first, then days 1 to `daysInMonth` in order |
| `CalendarPage.MonthGridDays` | src/app/calendar/page.tsx:119-127 | the filled cells are exactly 1..`daysInMonth`, strictly increasing, each appearing once |
| `CalendarPage.MonthGridSize` | src/app/calendar/page.tsx:105-130 | for a first weekday of 0 to 6 and a month of 28 to 31 days, the grid has 28 to 37 cells |
| `CalendarPage.IsToday` | src/app/calendar/page.tsx:207 | `day === today` holds only for a filled cell, and for a filled cell exactly when its day is today |
| `CalendarPage.HighlightedCells` | src/app/calendar/page.tsx:203-208 | a position is highlighted iff it holds today's day |
| `CalendarPage.OneCellIsToday` | src/app/calendar/page.tsx:203-208 | when today is within the month, exactly one cell is highlighted (the one at `firstDayOfMonth + today - 1`); otherwise none |
| `CalendarPage.ShownAttendees` | src/app/calendar/page.tsx:250 | the avatars are the first min(3, n) attendees |
| `CalendarPage.OverflowLabel` | src/app/calendar/page.tsx:256-260 | a "+N more" label is shown iff there are more than three attendees |
| `CalendarPage.AttendeesAccounted` | src/app/calendar/page.tsx:250-260 | the avatars plus the N of the label count every attendee exactly once; without the label every attendee has an avatar |
| `CalendarPage.ChangeText` | src/app/calendar/page.tsx:167-168 | the text is the change with one extra '+' in front iff the change is not "0" and starts with '+' |
| `CalendarPage.ChangeTextExamples` | src/app/calendar/page.tsx:167-168 | "+2" shows "++2", "+6" shows "++6", "0" and "-4" show as they are |
| `CalendarPage.ChangeTextDoubleSign` | src/app/calendar/page.tsx:167-168 | as written "+6" shows "++6"; the intended text shows "+6" |
| `CalendarPage.ChangeTextIntended` | src/app/calendar/page.tsx:167-168 | a non-zero change without a sign gets one '+' in front; a change that already starts with '+' or '-', and "0", are shown as they are |
| `DashboardPage.Split` | src/app/page.tsx:174 | `split(' ')` returns at least one piece, and no piece contains a space |
| `DashboardPage.SplitJoin` | src/app/page.tsx:174 | joining the pieces with a space gives the name back |
| `DashboardPage.SplitCount` | src/app/page.tsx:174 | there is one more piece than there are spaces |
| `DashboardPage.NonEmpty` | src/app/page.tsx:174 | the kept pieces are non-empty pieces of the split, and every non-empty piece is kept |
| `DashboardPage.NonEmptyAppend` | src/app/page.tsx:174 | dropping empty pieces distributes over concatenation |
| `DashboardPage.NonEmptyOne` | src/app/page.tsx:174 | a single piece is kept iff it is non-empty; with the append lemma this fixes the kept pieces, order and repeats included |
| `DashboardPage.FirstChars` | src/app/page.tsx:174 | `map(n => n[0]).join('')` holds one character per non-empty piece, that piece's first character, in order; an empty piece's `undefined` renders as nothing |
| `DashboardPage.Initials` | src/app/page.tsx:174 | the initials' length is the number of non-empty parts, which is at most the number of parts (spaces + 1); character k is the first character of the k-th non-empty part |
| `DashboardPage.InitialsExamples` | src/app/page.tsx:174 | "John Doe" gives "JD"; the empty name gives "" |

## Findings

| source | as written | input that shows it | evidently intended | confidence | as-written member | corrected member |
|---|---|---|---|---|---|---|
| src/app/calendar/page.tsx:167-168 | the code puts a '+' in front of a change that already starts with '+' | the change "+6" (and "+2"), taken from the page's own data, shows as "++6" | a positive change shows a single '+' | medium, not executed | `CalendarPage.ChangeText` (`CalendarPage.ChangeTextDoubleSign` exhibits it) | `CalendarPage.ChangeTextIntended` |

## Left out

- Rendering is not modelled: JSX, CSS classes, the dropdown's open state, the
  screen-reader texts, the "No notifications" placeholder, the Radix switch
  and the charts. They show values and decide nothing.
- `JSON.stringify` and `JSON.parse` are not modelled as text. The store maps a
  key either to a parsed id list or to `Unreadable`. `Unreadable` stands for any
  value `JSON.parse` or `new Set` rejects, and for a store that throws on read.
  A stored empty string reads like an absent key, as `if (stored)` makes it.
  JSON for a non-array that `new Set` still accepts (a string, say) is not modelled.
- `Notifications.NotificationCenter.Mount`: React's effect scheduling and
  Strict Mode's double invocation are not modelled. Mount runs the two mount
  effects in their React order: read, save the empty set, then save the loaded
  set if one was found.
- `Notifications.FormatRelativeTime`: `toLocaleDateString()` is an opaque
  parameter. Timestamps are integers; the source's floating-point milliseconds
  are not modelled.
- Concurrent tabs share the store with last-writer-wins. This is not modelled.
- `Security.SanitizeInput`: lengths count Unicode scalar values, not UTF-16 code
  units, so a character outside the Basic Multilingual Plane counts once, not
  twice. `Security.IsTrimmable` is the ECMAScript whitespace and line-terminator
  set, written out.
- `Security.FilterNonEmpty`: its own ensures fixes only which sources are kept;
  order and repeats are fixed by `FilterNonEmptyAppend` with `FilterNonEmptyOne`.
- `Security.InWindow`: its own ensures fixes only which times are kept; order and
  repeats are fixed by `InWindowAppend` with `InWindowOne`, and the number kept by
  `InWindowCount`.
- `Security.StripAngleBrackets`: its own ensures fixes only which characters are
  kept; order and repeats are fixed by `StripAngleBracketsAppend` with
  `StripAngleBracketsOne`.
- `Notifications.UnreadNotifications`: its own ensures fixes only which entries are
  kept; order and repeats are fixed by `UnreadNotificationsAppend` with
  `UnreadNotificationsOne`, and the count by `UnreadNotificationsCount`.
- `DashboardPage.NonEmpty`: its own ensures fixes only which pieces are kept; order
  and repeats are fixed by `NonEmptyAppend` with `NonEmptyOne`.
- `Security.Trim`: its own ensures fixes only its ends. That the result is the
  input with exactly its whitespace ends cut is the lemma `Security.TrimCutsEnds`.
- `validateEnv` is left out. It reads `process.env`, and its list of required
  variables is empty, so it never throws.
- `Security.RateLimiter.CanMakeRequest`: JavaScript numbers (doubles) are
  modelled as unbounded integers. `Date.now()` is the parameter `now`.
- `SettingsDialog.FocusStaysInside` assumes the browser's own Tab move goes to
  the next element of the dialog's focus order. The saving and restoring of
  focus, the `setTimeout` focus on the close button and the body scroll lock
  are DOM effects and are not modelled.
- `DashboardPage.Initials`: `n[0]` takes one UTF-16 code unit. The model takes
  the first Unicode scalar value.
- The `console.error` calls in the load and save `catch` blocks only log; the
  model keeps the state those blocks leave (nothing loaded, store unchanged).
- Left out as presentation or browser APIs: the logger, the performance
  helpers, the error boundary, the sidebar's resize listener, the header toggle,
  the static data pages, the trends page's float bar widths and the constants
  tables.
- The calendar's month-navigation buttons do nothing in the source, and the
  month and weekday names are static tables.
- The interface contract's `markAllAsRead`, `isNotificationRead` and type
  guards exist only as declarations; the component implements none of them.
