# Reminder calendar: the reminder index, the month grid and the reminder form

This project models the logic of a month-view reminder calendar written in
React and TypeScript, and proves properties of it in Dafny.

- **Reminder index** (`frontend/src/hooks/storage.tsx`). The storage
  provider keeps a map from a day key such as `"26032021"` (`ddMMyyyy`) to
  that day's reminders. `setItem` upserts a reminder by `id` and re-sorts the
  list by its `"HH:mm"` time. `deleteReminderById` filters one id out of a
  day. `deleteRemindersByDate` drops a whole day. `formatDate` turns the
  `"yyyy-MM-dd"` value of a date input into a key. The state is the class
  `Storage.ReminderStore`, whose field `hash` is a `map<string, seq<Reminder>>`.
  Its invariant is that every list is sorted by time and holds no id twice.
- **Month grid** (`createCalendarRows` in
  `frontend/src/components/Calendar/index.tsx`). A `while` loop walks day by
  day from the Sunday of the week of the 1st to the Saturday of the week of
  the month's last day. It pushes one cell per day with its day of month,
  its weekend, today and in-month flags, and the reminders stored under its
  key. Days are integer ordinals of the proleptic Gregorian calendar
  (`Dates`), counted from 0000-01-01, which was a Saturday. Weekdays follow
  `getDay()`: 0 is Sunday. The `date-fns` helpers the component calls
  (`startOfWeek`, `endOfWeek`, `addDays`, `isWeekend`, `format`) are
  written out on these ordinals.
- **Reminder form** (`onSubmitNewReminder` in
  `frontend/src/components/ReminderDialog/index.tsx`). The form turns its
  fields into a reminder and its key. It applies the title rule (a
  JavaScript `length`, in UTF-16 code units, of at most 30), the
  `"New event"` default title and the choice between the submitted id, the
  selected reminder's id and a fresh one. Then it makes one `setItem` call.

JavaScript behaviour is written out where it matters:

- `split('-')` always yields at least one piece, and a missing destructured
  piece prints as `"undefined"` (`Storage.FormatDate`).
- String `<` is lexicographic (`Text.Less`). Dafny's own `<` on strings
  means "proper prefix", so it is not used for this.
- `Array.prototype.sort` with the time comparator is stable. It is modelled
  as a stable insertion sort (`Storage.SortByTime`).
- `findIndex` returns -1 when nothing matches.
- `length` counts UTF-16 code units (`Text.Utf16Length`).
- Reading a missing key gives `undefined`, modelled as `Option`.

Files: `text.dfy` (zero padding, split and join, string order), `dates.dfy`
(calendar arithmetic), `storage.dfy` (the index), `calendar.dfy` (the grid
and the default reminder of a cell), `reminder_dialog.dfy` (the form).

Where the code and its tests disagree, the model follows the code. The tests
call `addReminder`, `editReminder` and a `deleteRemindersByDate` that takes a
`Date`. The provider defines none of these. The model has `setItem`,
`deleteReminderById` and `deleteRemindersByDate(date: string)` as written.
`deleteReminderById` writes back an emptied list and keeps its key. Editing
a reminder's date files it under the new key and leaves the old entry in
place (`ReminderDialog.EditToOtherDayKeepsOldEntry`).

## Model

| member | source | states |
|---|---|---|
| Text.Padded | frontend/src/components/Calendar/index.tsx:90 | the `dd`/`MM`/`yyyy` tokens: decimal digits, at least the requested width |
| Text.DecimalValueOfPadded | frontend/src/components/Calendar/index.tsx:90 | reading the padded digits back gives the number |
| Text.PaddedInjective | frontend/src/components/Calendar/index.tsx:90 | two numbers padded to one width are equal exactly when their texts are |
| Text.PaddedWidth | frontend/src/components/Calendar/index.tsx:90 | a number below 10^width pads to exactly `width` characters |
| Text.Split | frontend/src/hooks/storage.tsx:27 | `split` yields at least one piece and no piece holds the separator |
| Text.SplitJoin | frontend/src/hooks/storage.tsx:27 | splitting the join of separator-free pieces gives the pieces back |
| Text.JoinSplit | frontend/src/hooks/storage.tsx:27 | joining the pieces of a split gives the text back |
| Text.LessIrreflexive | frontend/src/hooks/storage.tsx:62-63 | string `<` is irreflexive |
| Text.LessTransitive | frontend/src/hooks/storage.tsx:62-63 | string `<` is transitive |
| Text.LessTotal | frontend/src/hooks/storage.tsx:62-63 | any two different strings are ordered one way or the other |
| Text.LessAsymmetric | frontend/src/hooks/storage.tsx:62-63 | `a < b` rules out `b < a` |
| Text.LessByFirstDifference | frontend/src/hooks/storage.tsx:62-63 | string `<` as JavaScript defines it: a proper prefix comes first, otherwise the first differing character decides |
| Text.Utf16Length | frontend/src/components/ReminderDialog/index.tsx:43-48 | the JavaScript `length` of a string: between its number of characters and twice that |
| Text.Utf16LengthOfBmp | frontend/src/components/ReminderDialog/index.tsx:43-48 | `length` equals the number of characters exactly when no character lies outside the Basic Multilingual Plane |
| Text.Utf16LengthOfAstral | frontend/src/components/ReminderDialog/index.tsx:43-48 | characters outside the Basic Multilingual Plane count twice each |
| Dates.DaysInMonth | frontend/src/components/Calendar/index.tsx:82 | every month has 28 to 31 days |
| Dates.DaysBeforeYearClosedForm | frontend/src/components/Calendar/index.tsx:81-84 | days before a year: 365 per year plus one per Gregorian leap year |
| Dates.OrdinalWithinMonth | frontend/src/components/Calendar/index.tsx:98-101 | a day's ordinal lies in a month's range of ordinals exactly when the day is in that month |
| Dates.OrdinalInjective | frontend/src/components/Calendar/index.tsx:87-108 | two valid days have the same ordinal exactly when they are the same day |
| Dates.NextDay | frontend/src/components/Calendar/index.tsx:107 | `addDays(d, 1)` is a valid day whose ordinal is one more |
| Dates.PrevDay | frontend/src/components/Calendar/index.tsx:83 | the day before is a valid day whose ordinal is one less |
| Dates.AddDays | frontend/src/components/Calendar/index.tsx:107 | `addDays(d, k)` is valid and k ordinals later |
| Dates.SubDays | frontend/src/components/Calendar/index.tsx:83 | going back k days gives a valid day k ordinals earlier |
| Dates.StartOfWeek | frontend/src/components/Calendar/index.tsx:83 | `startOfWeek`: a Sunday, on or before the day and less than a week before |
| Dates.EndOfWeek | frontend/src/components/Calendar/index.tsx:84 | `endOfWeek`: a Saturday, on or after the day and less than a week after |
| Dates.IsWeekend | frontend/src/components/Calendar/index.tsx:96 | `isWeekend`: holds exactly for the days whose ordinal is 0 or 1 modulo 7, the Saturdays and Sundays counted from the Saturday 0000-01-01 |
| Dates.KeyOf | frontend/src/components/Calendar/index.tsx:90 | `format(d, 'ddMMyyyy')`: all digits, and eight of them for a valid day of a four-digit year |
| Dates.KeyOfInjective | frontend/src/components/Calendar/index.tsx:90 | two valid days have the same `ddMMyyyy` key exactly when they are the same day |
| Dates.IsoDate | frontend/src/components/Calendar/index.tsx:68 | `format(d, 'yyyy-MM-dd')`: splitting it on `-` gives the padded year, month and day back |
| Dates.March26Of2021IsAFriday | frontend/src/__tests__/hooks/storage.spec.tsx:15-23 | the test reminder's day, 26 March 2021, falls on weekday 5 (Friday) |
| Storage.FormatDate | frontend/src/hooks/storage.tsx:26-29 | a key never holds a dash, whatever the date text |
| Storage.FormatDateOfParts | frontend/src/hooks/storage.tsx:26-29 | `"y-m-d"` with dash-free parts becomes `d ++ m ++ y` |
| Storage.FormatDateWithoutDash | frontend/src/hooks/storage.tsx:26-29 | a date without a dash is one piece, so the key is `"undefinedundefined"` followed by the date |
| Storage.FormatDateOfEmpty | frontend/src/hooks/storage.tsx:26-29 | an empty date gives `"undefinedundefined"`: the day and month pieces are missing |
| Storage.FormatDateExample | frontend/src/__tests__/hooks/storage.spec.tsx:17-24 | `"2021-03-26"` becomes `"26032021"` |
| Storage.FormatIsoDate | frontend/src/hooks/storage.tsx:26-29 | the key of a day's `yyyy-MM-dd` text is that day's `ddMMyyyy` key |
| Storage.CompareTime | frontend/src/hooks/storage.tsx:61-65 | the comparator returns -1, 0 or 1 exactly when the first time is smaller, equal or larger |
| Storage.SortedByComparator | frontend/src/hooks/storage.tsx:61-65 | a list is sorted by time exactly when the comparator returns 1 for no earlier/later pair |
| Storage.InsertByTime | frontend/src/hooks/storage.tsx:61-65 | insertion keeps the list sorted and adds exactly the new entry |
| Storage.SortByTime | frontend/src/hooks/storage.tsx:61-65 | the sort result is sorted by time and a permutation of its input |
| Storage.InsertByTimeStable | frontend/src/hooks/storage.tsx:61-65 | insertion puts the new entry after the entries of equal time, whose order it keeps |
| Storage.SortByTimeStable | frontend/src/hooks/storage.tsx:61-65 | the sort keeps the relative order of the entries of each time |
| Storage.SortByTimeOfSorted | frontend/src/hooks/storage.tsx:61-65 | sorting a sorted list changes nothing |
| Storage.SortByTimeDistinct | frontend/src/hooks/storage.tsx:61-65 | sorting keeps ids distinct |
| Storage.FindIndexById | frontend/src/hooks/storage.tsx:50 | `findIndex`: -1 exactly when no entry has the id, otherwise the first entry with it |
| Storage.Upsert | frontend/src/hooks/storage.tsx:49-59 | replace in place when the id is present, append when it is not; the reminder is in the result |
| Storage.UpsertReplaces | frontend/src/hooks/storage.tsx:52-53 | a present id: every other entry is kept in place and ids stay distinct |
| Storage.UpsertAppends | frontend/src/hooks/storage.tsx:54-55 | a new id: old entries plus the reminder, ids distinct |
| Storage.RemoveById | frontend/src/hooks/storage.tsx:76-78 | `filter`: exactly the entries with another id; sortedness and distinct ids are kept |
| Storage.RemoveByIdConcat | frontend/src/hooks/storage.tsx:76-78 | filtering a concatenation filters each part in order, so the order is kept |
| Storage.RemoveByIdAbsent | frontend/src/hooks/storage.tsx:76-78 | filtering an absent id changes nothing |
| Storage.AfterSetItem | frontend/src/hooks/storage.tsx:46-71 | the index after `setItem`: the key is added, every other key keeps its list, and the key's list is sorted and holds the reminder |
| Storage.SetItemOnAbsentKey | frontend/src/hooks/storage.tsx:57-58 | an absent key ends up holding exactly `[reminder]` |
| Storage.SetItemReplaces | frontend/src/hooks/storage.tsx:50-53 | a present id: same length, the old entry swapped for the new one, no duplicate id |
| Storage.SetItemAppends | frontend/src/hooks/storage.tsx:54-55 | a new id: one longer, a permutation of the old list plus the reminder |
| Storage.SetItemOrder | frontend/src/hooks/storage.tsx:61-65 | the stored list is sorted, and entries of equal time keep their order from before the sort |
| Storage.SetItemStoresOnce | frontend/src/hooks/storage.tsx:46-71 | the reminder is stored and it is the only entry with its id |
| Storage.SetItemWellFormed | frontend/src/hooks/storage.tsx:46-71 | every list stays sorted with distinct ids |
| Storage.SetItemIdempotent | frontend/src/hooks/storage.tsx:46-71 | calling `setItem(k, r)` twice leaves the same index as once |
| Storage.SetItemKeyedByDate | frontend/src/hooks/storage.tsx:46-71 | filing a reminder under the key of its own date keeps every reminder under its date's key |
| Storage.AfterDeleteById | frontend/src/hooks/storage.tsx:73-84 | the index after `deleteReminderById`: same keys, other keys unchanged, and the day keeps exactly its entries with another id |
| Storage.DeleteByIdKeepsInvariants | frontend/src/hooks/storage.tsx:73-84 | deleting keeps both invariants, and the id is gone from that day |
| Storage.ReminderStore.constructor | frontend/src/hooks/storage.tsx:36 | the provider starts with an empty index |
| Storage.ReminderStore.GetStorage | frontend/src/hooks/storage.tsx:38-40 | the whole index: the same keys as the state, each reading as `getStorageByKey` does, every list sorted with distinct ids |
| Storage.ReminderStore.GetStorageByKey | frontend/src/hooks/storage.tsx:42-44 | defined exactly for the keys present, and then the stored list, which is sorted by time with distinct ids |
| Storage.ReminderStore.SetItem | frontend/src/hooks/storage.tsx:46-71 | the new index is the upsert-and-sort of the old one at `key`; the reminder is stored; other keys are unchanged |
| Storage.ReminderStore.DeleteReminderById | frontend/src/hooks/storage.tsx:73-84 | fails, changing nothing, exactly when the day has no entry; otherwise filters the id out and keeps the key |
| Storage.ReminderStore.DeleteRemindersByDate | frontend/src/hooks/storage.tsx:86-92 | the day's key is gone, every other key keeps its list, an absent key is a no-op |
| Calendar.MonthEnd | frontend/src/components/Calendar/index.tsx:82 | the month's last day is `DaysInMonth - 1` ordinals after its first |
| Calendar.CreateCalendarRows | frontend/src/components/Calendar/index.tsx:80-111 | cell i holds the day i days after GridStart, up to GridEnd; each cell is built from its day; `day` and `reminders` come from that day and its key |
| Calendar.GridStartShape | frontend/src/components/Calendar/index.tsx:81-83 | the first cell is a Sunday, `Lead` days before the 1st |
| Calendar.GridEndShape | frontend/src/components/Calendar/index.tsx:82-84 | the last cell is a Saturday, less than a week after the month's last day |
| Calendar.GridWholeWeeks | frontend/src/components/Calendar/index.tsx:81-89 | the cell count is a multiple of 7, between 28 and 42 |
| Calendar.MonthRange | frontend/src/components/Calendar/index.tsx:98-101 | a day lies between the month's first and last day exactly when it is in that month |
| Calendar.CellFor | frontend/src/components/Calendar/index.tsx:90-103 | the cell of day d: in-month flag exactly for days of the reference month, today flag exactly for today, and the list stored under the day's key, or undefined when there is none |
| Calendar.GridConsecutive | frontend/src/components/Calendar/index.tsx:87-108 | the grid is non-empty, starts at GridStart, ends at GridEnd, each cell the day after the one before |
| Calendar.GridDistinctDays | frontend/src/components/Calendar/index.tsx:87-108 | no day appears twice |
| Calendar.GridCoversMonth | frontend/src/components/Calendar/index.tsx:81-89 | the month's first and last days are cells `Lead` and `Lead + DaysInMonth - 1` |
| Calendar.GridWithinMonth | frontend/src/components/Calendar/index.tsx:98-101 | the in-month flag marks exactly the cells of the month, which are the `DaysInMonth` cells after the lead |
| Calendar.GridCountWithinMonth | frontend/src/components/Calendar/index.tsx:98-101 | as many cells are flagged in-month as the month has days |
| Calendar.GridWeekends | frontend/src/components/Calendar/index.tsx:96 | a cell is a weekend cell exactly when it is first or last in its week row |
| Calendar.GridToday | frontend/src/components/Calendar/index.tsx:90-97 | the today flag marks today's cell and at most one cell |
| Calendar.DefaultNewReminder | frontend/src/components/Calendar/index.tsx:61-70 | empty id, title and city, colour `#c8e9a0`, time `00:00`, and `formatDate` of its date is the cell's key |
| ReminderDialog.ChooseId | frontend/src/components/ReminderDialog/index.tsx:62-74 | the submitted id, else the selected reminder's id; an empty one becomes the fresh id; never empty when the fresh id is not |
| ReminderDialog.Submit | frontend/src/components/ReminderDialog/index.tsx:43-75 | rejected exactly for titles longer than 30 UTF-16 code units; otherwise the key is `formatDate` of the stored date, the title is kept or defaulted, and the other fields are copied |
| ReminderDialog.OnSubmitNewReminder | frontend/src/components/ReminderDialog/index.tsx:54-81 | saves exactly when the title's `length` is at most 30; a save is one `setItem` of the submitted reminder under its key; a rejection leaves the store unchanged |
| ReminderDialog.TitleLengthBounds | frontend/src/components/ReminderDialog/index.tsx:43-48 | titles of at most 15 characters always pass, titles of more than 30 characters never do |
| ReminderDialog.AstralTitleRejected | frontend/src/components/ReminderDialog/index.tsx:43-48 | a title of 16 characters outside the Basic Multilingual Plane is rejected |
| ReminderDialog.SaveKeepsKeyedByDate | frontend/src/components/ReminderDialog/index.tsx:64-76 | after a save every reminder is still filed under the key of its date |
| ReminderDialog.SavedReminderInCell | frontend/src/components/ReminderDialog/index.tsx:64-76 | a reminder saved for day d shows up in the grid cell of d |
| ReminderDialog.ResaveIsIdempotent | frontend/src/components/ReminderDialog/index.tsx:62-76 | saving an existing reminder's dialog twice stores the same as once |
| ReminderDialog.EditReplacesEntry | frontend/src/components/ReminderDialog/index.tsx:62-76 | editing on the same day keeps the id and replaces the entry: same length, one entry with that id |
| ReminderDialog.EditToOtherDayKeepsOldEntry | frontend/src/components/ReminderDialog/index.tsx:64-76 | editing to another day leaves the old day's list unchanged and files the id under both keys |
| ReminderDialog.ResaveUntouched | frontend/src/components/ReminderDialog/index.tsx:54-126 | saving an existing reminder's dialog without typing stores the same reminder under its date's key, except that `fullDate` becomes undefined |
| ReminderDialog.SaveUntouchedNewReminder | frontend/src/components/Calendar/index.tsx:61-70 | saving a cell's untouched new-reminder form files "New event" at `00:00` with the fresh id under the cell's key |

## Left out

- React plumbing is not modelled: context, `useStorage`, `useCallback`, `useEffect`, JSX and rendering. The provider's state is the `hash` field of `Storage.ReminderStore`.
- `setHash` is taken to replace the state at once. React's batching and stale closures are not modelled.
- Storage.ReminderStore.SetItem: `dataCopy[idx] = reminder` and `sort` write into the array the old state still holds. The model builds a new list, so this aliasing of the previous state is not captured.
- Storage.ReminderStore.DeleteRemindersByDate: `delete` runs on the state object itself before `setHash`. The model replaces the map, so that mutation of the old state is not captured.
- Storage.SortByTime: `Array.prototype.sort` is the engine's algorithm. It is modelled by a stable insertion sort, which gives the same order because the sort is stable and the comparator is a total preorder.
- Text.Less compares characters, while JavaScript compares UTF-16 code units. They agree on the `"HH:mm"` texts a time input produces.
- date-fns local time, time zones and DST are not modelled. Days are whole-day ordinals, and every grid cell sits at local midnight, so the default reminder's time is `"00:00"`.
- Calendar.ValidMonth: years start at 1, so that the grid's first Sunday is never before 0000-01-01. date-fns prints year 0 as era year 1 under `yyyy`; this is not modelled.
- `handleNextMonth` and `handlePrevMonth` (`addMonths`, `subMonths`) are not modelled. The grid takes the year and month directly.
- `new Date()` is the parameter `today`, read once for the whole grid. `uuid()` is the parameter `freshId`.
- Calendar.GridToday: "at most one cell" holds because `today` is read once. The component calls `new Date()` once per cell, so a grid built across midnight could flag two cells; that is not modelled.
- The Yup schema and react-hook-form are modelled only as the title rule and the `Rejected` outcome. The error message text is not modelled.
- The debounce hook is timer behaviour and is not modelled. The weather lookup has no client code in the repository and is not modelled.
- Nothing is persisted to browser storage, and the model adds no such layer.
- The tests' `addReminder`, `editReminder` and `Date`-typed `deleteRemindersByDate` do not exist in the provider, so they are not modelled.
