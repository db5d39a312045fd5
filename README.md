# BTU announcer — a verified model of the announcement pipeline

The BTU announcer is a Telegram bot. It watches the announcement listing pages of the
departments of Bursa Technical University and sends every new announcement to the users
subscribed to that department. This project models the bot's core in Dafny and proves
properties of the model. It covers:

- **the store** (`handlers/database.py`), module `Database`:
  - `DatabaseHandler` has a `users` table (one subscription per user) and a
    `sent_announcements` table (one row per department and announcement fingerprint).
  - `JSONHandler`, the legacy store, keeps at most 50 fingerprints per department, with
    their titles kept in lockstep.
  - Both are classes whose methods reassign `seq`/`map` fields. The row-level functions
    beside them (`Upsert`, `MarkSent`, `Sweep`, `Record`, …) specify what each method
    does, and the lemmas are proved about those functions.
- **the scraper** (`handlers/scraper.py`), module `Scraper`:
  - the detail-link pass and the selector fallback, with the first-N limit;
  - the date and title cleanup and the title-length filter;
  - title, date and description selection with the 200-character preview;
  - the title+link fingerprint.
  - The string helpers the extraction code uses (`strip`, the first `DD.MM.YYYY` match,
    `replace`, `sorted`, decimal rendering) are in module `Text`.
- **the department table** (`handlers/departments.py`), module `Departments`: the 30
  departments with their listing URLs and faculties, and the three lookups.
- **the command handlers**:
  - module `Production` (`handlers/commands_production.py`): the message format, the send
    step, `/update`, the selection handler and the one-per-row `/start` keyboard;
  - module `Commands` (`handlers/commands.py`): the two-per-row `/start` keyboard with its
    special rows and the three special buttons of the selection handler;
  - module `Keyboard`: the shared keyboard layouts and the private-chat guard.
  - `update_command`, `format_announcement_message` and `send_announcement_to_user` are the
    same text in both handler files. They are modelled once, in `Production`, and
    `Commands` uses them from there.
- **the periodic check** (`main.py`), module `Scheduler`:
  - `check_all_departments`: fan-out to every subscriber, mark after sending, count
    successful sends, skip a failing department;
  - the hour-2 retention sweep of `scheduled_check_job`.
- **the keyboard scripts**:
  - module `StartCommandScript` (`start_command_test.py`): the unsorted two-per-row
    chunking with the fallback to the test departments;
  - module `KeyboardSimple` (`test_keyboard_simple.py`): the comprehension-based chunking.

Everything outside the program is a parameter:

- HTTP fetching, HTML parsing and `urljoin`: the `Fetch` outcome, the pre-parsed `Page`
  and the `Resolver` function.
- Python's `hash()`: the `Fingerprint` function.
- Telegram: the `Bot` function, which says whether a message is accepted.
- The scraper, as the handlers call it: `Scraping`, a function never returning more than
  the limit it is given. `LiveScraping` builds it from `Scraper.Scrape`.
- The clock: `now` in seconds and `hour`.

The handlers and the check read the department table through a `registry` parameter, or a
`departments` list. The application passes `Departments.Registry` and
`Departments.GetDepartmentNames()`.

Every effect on the world outside the store is recorded, in order, as an `Event`:

- `Scraped(url)`: the page was fetched.
- `Attempt(user, department, announcement, delivered)`: a send was attempted.
- `Marked(department, hash)`: a pair was marked sent.

This lets the proofs state the ordering "sent before marked".

## Model

| member | source | states |
|---|---|---|
| Database.FindUser | handlers/database.py:61-65 | a row is found iff some row has the id, and it is the first such row |
| Database.Upsert | handlers/database.py:30-51 | afterwards the user's row has the given name and department and is active; no row is added for an existing user, one is added otherwise; other users' rows are unchanged; one row per user is preserved |
| Database.ReplacedIsFound | handlers/database.py:44-47 | updating an existing user makes the new row the one found for that user, and keeps one row per user |
| Database.AppendedIsFound | handlers/database.py:48-51 | inserting a new user makes the new row the one found for it, and keeps one row per user |
| Database.Deactivate | handlers/database.py:67-70 | only the user's rows change, and only their `active` flag becomes false |
| Database.ActiveSubscribers | handlers/database.py:53-59 | exactly the rows with that department that are active; order and one entry per row by `Database.ActiveSubscribersAppend` and `Database.ActiveSubscribersSingle` |
| Database.ActiveSubscribersAppend | handlers/database.py:53-59 | the search over a concatenation is the search over each part in turn, so table order is kept and each row appears once |
| Database.ActiveSubscribersSingle | handlers/database.py:57 | one row is listed exactly when it has that department and is active |
| Database.UpsertSubscribes | handlers/database.py:30-59 | after an upsert the user is an active subscriber of the new department and of no other |
| Database.DeactivatedIsNowhere | handlers/database.py:53-70 | after deactivation the user is listed for no department |
| Database.MarkSent | handlers/database.py:82-90 | the pair is sent afterwards; an already-sent pair leaves the table unchanged; otherwise exactly one row is appended; every other pair's status is unchanged; one row per pair is preserved |
| Database.MarkSentIdempotent | handlers/database.py:82-90 | marking the same pair twice equals marking it once |
| Database.Sweep | handlers/database.py:104-118 | keeps exactly the rows sent at or after the cutoff, never adds a sent pair, and preserves one row per pair |
| Database.SweepByAge | handlers/database.py:104-115 | with a 30-day retention a row 31 days old is removed and a row 29 days old is kept |
| Database.CountFor | handlers/database.py:97-102 | at most the table size; zero iff no row has that department; the table size iff every row has it |
| Database.CountForAppend | handlers/database.py:97-102 | the count of a concatenation is the sum of the counts, so with `Database.CountForSingle` it is the number of rows of that department |
| Database.CountForSingle | handlers/database.py:101 | one row counts one exactly when it has that department |
| Database.DatabaseHandler.constructor | handlers/database.py:15-28 | the handler starts with the given tables |
| Database.DatabaseHandler.AddUserSubscription | handlers/database.py:30-51 | `users` becomes `Upsert` of the old table; `sent` unchanged; the store invariant is kept |
| Database.DatabaseHandler.GetUsersByDepartment | handlers/database.py:53-59 | `ActiveSubscribers` of the users table: the active rows of the department, in table order, each once |
| Database.DatabaseHandler.GetUserSubscription | handlers/database.py:61-65 | a row is returned iff the user has one, and it is that user's row |
| Database.DatabaseHandler.DeactivateUser | handlers/database.py:67-70 | `users` becomes `Deactivate` of the old table; `sent` unchanged; invariant kept |
| Database.DatabaseHandler.IsAnnouncementSent | handlers/database.py:73-80 | true iff some row has the department and the hash |
| Database.DatabaseHandler.MarkAnnouncementSent | handlers/database.py:82-90 | `sent` becomes `MarkSent` of the old table; `users` unchanged; invariant kept |
| Database.DatabaseHandler.GetAllUsers | handlers/database.py:93-95 | the whole users table |
| Database.DatabaseHandler.GetSentAnnouncementsCount | handlers/database.py:97-102 | the table size when no department (or an empty one) is given; otherwise `CountFor` of the table for that department, so at most the table size, and zero iff no row has that department |
| Database.DatabaseHandler.CleanupOldAnnouncements | handlers/database.py:104-118 | `sent` becomes `Sweep` at `now - days * 86400`; `users` unchanged; invariant kept |
| Database.DatabaseHandler.GetStats | handlers/database.py:125-131 | active users = `CountActive` of the users table ≤ total users = the users table size; total sent = the sent table size |
| Database.CountActive | handlers/database.py:129 | at most the table size; zero iff no user is active; the table size iff every user is active |
| Database.CountActiveAppend | handlers/database.py:129 | the count of a concatenation is the sum of the counts, so with `Database.CountActiveSingle` it is the number of active rows |
| Database.CountActiveSingle | handlers/database.py:129 | one row counts one exactly when it is active |
| Database.KeepLast | handlers/database.py:176-179 | the last `n` elements in order, or all when there are fewer |
| Database.Record | handlers/database.py:165-180 | the hash is present afterwards; a known hash changes nothing; a new hash becomes the newest entry, and the oldest is evicted only at the 50 cap; lockstep and the 50 bound are preserved |
| Database.SlideWindow | handlers/database.py:176-179 | appending to a window of at least `n` elements leaves the last `n`, ending with the new one; for a window of exactly `n`, exactly the oldest is dropped |
| Database.RecordKeepsPairs | handlers/database.py:172-179 | after recording, each kept hash still sits beside its own title |
| Database.JsonHandler.constructor | handlers/database.py:136-149 | the handler starts with the loaded data |
| Database.JsonHandler.IsAnnouncementSent | handlers/database.py:160-163 | true iff the department has an entry holding the hash |
| Database.JsonHandler.MarkAnnouncementSent | handlers/database.py:165-180 | the department's entry becomes `Record` of the old entry (or of an empty one); every other department is untouched; lockstep and the 50 bound are kept |
| Departments.Lookup | handlers/departments.py:136-142 | an entry is found iff the name is a key, and it is an entry with that name |
| Departments.Names | handlers/departments.py:132-134 | the keys of the table, in table order |
| Departments.GetDepartmentNames | handlers/departments.py:132-134 | the 30 registry names in registry order |
| Departments.UrlIn | handlers/departments.py:136-138 | a URL iff the name is a key, and it is that entry's URL |
| Departments.GetDepartmentUrl | handlers/departments.py:136-138 | total; non-`None` iff the name is a key, and then that department's URL |
| Departments.GetDepartmentFaculty | handlers/departments.py:140-142 | total; non-`None` iff the name is a key, and then that department's faculty |
| Departments.ListingUrl | handlers/departments.py:9-130 | every URL the table builds contains `/duyuru/birim/` |
| Departments.UrlsAreListingPages | handlers/departments.py:136-138 | every URL the lookup returns is a listing page |
| Departments.RegistryShape | handlers/departments.py:9-134 | the names list has 30 entries, none repeated |
| Text.StripLeftRemovesSpace | handlers/scraper.py:129 | left stripping removes exactly a prefix of whitespace, up to a non-space character |
| Text.StripRightRemovesSpace | handlers/scraper.py:129 | right stripping removes exactly a suffix of whitespace, back to a non-space character |
| Text.StripIsTrimmedInfix | handlers/scraper.py:129 | `strip()` returns an infix of its input that neither starts nor ends with whitespace, with only whitespace around it |
| Text.ContainsIsOccurrence | handlers/scraper.py:50 | substring search holds iff the pattern occurs at some index |
| Text.RemoveAllLength | handlers/scraper.py:148 | removing an absent pattern changes nothing; removing a present one shortens the text by at least its length |
| Text.FindDateFromIsLeftmost | handlers/scraper.py:141-142 | the scan from `k` finds the leftmost `DD.MM.YYYY` at or after `k`, or reports that there is none |
| Text.SearchDateIsFirstMatch | handlers/scraper.py:141-145 | a date is found iff the text holds a `DD.MM.YYYY` anywhere, and it is the first one, 10 characters long |
| Text.Sort | handlers/commands.py:56 | `sorted()`: the result is ordered and a permutation of the input |
| Text.DecimalRoundTrip | handlers/commands.py:290 | the decimal rendering of a user id reads back as that id |
| Scraper.Take | handlers/scraper.py:55 | `xs[:n]`: the prefix of length `min(len(xs), n)` |
| Scraper.DetailLinks | handlers/scraper.py:50 | exactly the anchors whose `href` contains `/duyuru/detay/` |
| Scraper.DetailLinksAppend | handlers/scraper.py:50 | the links of a concatenation are the links of each part in turn, so document order is kept |
| Scraper.DetailLinksSingle | handlers/scraper.py:50 | one anchor is kept exactly when it is a detail link |
| Scraper.KeepRecords | handlers/scraper.py:55-59 | no more records than candidates, each with a non-blank title |
| Scraper.KeepRecordsProvenance | handlers/scraper.py:55-59 | every kept record was extracted from a candidate |
| Scraper.KeepRecordsAppend | handlers/scraper.py:55-59 | records keep candidate (document) order: the records of `xs + ys` are those of `xs` then those of `ys` |
| Scraper.KeepRecordsEmpty | handlers/scraper.py:64-65 | a pass yields nothing iff no candidate yields a usable record |
| Scraper.DetailTitle | handlers/scraper.py:128-150 | when the parent text holds a date and removing every copy of the first one and stripping leaves more than 5 characters, that remainder; otherwise the stripped link text |
| Scraper.DetailDate | handlers/scraper.py:133-145 | the first `DD.MM.YYYY` of the parent text (`Text.SearchDate`), empty when there is none |
| Scraper.BtuAnnouncement | handlers/scraper.py:103-164 | a record iff the link resolves and the title is longer than 3 characters; it has `DetailTitle`, `DetailDate`, no description, the resolved link, and a hash of title+link |
| Scraper.DetailPass | handlers/scraper.py:55-62 | at most one record per link; every record has a title longer than 3 characters and a title+link hash |
| Scraper.DetailExample | handlers/scraper.py:124-154 | link text and parent text both `"12.03.2024 Yeni Duyuru Başlığı"` with href `/duyuru/detay/77` give the title without the date, that date and the resolved link |
| Scraper.ShortTitleExample | handlers/scraper.py:124-154 | parent text `"12.03.2024 Kısa"` leaves only 4 characters, so the link text `"Kısa duyuru"` stays the title; the date is still taken |
| Scraper.DatedLineTitle | handlers/scraper.py:140-150 | for a line `"12.03.2024 " + rest` where `rest` holds no `1` and has no whitespace at either end, the date is found and `rest` is the title exactly when it is longer than 5 characters, else the stripped link text |
| Scraper.FirstNonBlank | handlers/scraper.py:192-195 | the index of the first title selector with a non-blank match |
| Scraper.TitleSelection | handlers/scraper.py:186-206 | the title is the first non-blank selector match; else empty when an `a` matched; else the element's own stripped text |
| Scraper.ElementTitle | handlers/scraper.py:186-206 | a stripped text, with no whitespace at either end; which text it is, is in `Scraper.TitleSelection` |
| Scraper.ElementLink | handlers/scraper.py:208-212 | with an `href`, `urljoin(base_url, href)` (`None` when that raises); without one, the empty link |
| Scraper.ElementDate | handlers/scraper.py:214-220 | the stripped text of the first date selector that matches, empty when none matches; no whitespace at either end |
| Scraper.FirstPresent | handlers/scraper.py:215-220 | the index of the first date selector that matches |
| Scraper.Preview | handlers/scraper.py:229 | text of at most 200 characters is kept; longer text becomes its first 200 characters plus `...`; empty iff the input is empty |
| Scraper.FirstUsable | handlers/scraper.py:223-230 | the index of the first description selector whose stripped text is non-empty and differs from the title |
| Scraper.ElementDescription | handlers/scraper.py:222-230 | empty iff no selector is usable; otherwise the `Preview` of the stripped text of the first usable selector's match; never longer than 203 characters |
| Scraper.AnnouncementData | handlers/scraper.py:166-244 | a record iff the title is non-empty and the link resolves; its fields are the selected title, link, date and description, and its hash is of title+link |
| Scraper.DescriptionDiffersFromTitle | handlers/scraper.py:227-228 | a first description equal to the title is skipped and the next selector decides |
| Scraper.FindTitleElement | handlers/scraper.py:189-206 | the selector loop with `break` returns `TitleElement` |
| Scraper.FindDate | handlers/scraper.py:214-220 | the selector loop with `break` returns `ElementDate` |
| Scraper.FindDescription | handlers/scraper.py:222-230 | the selector loop with `break` returns `ElementDescription` |
| Scraper.ExtractAnnouncementData | handlers/scraper.py:166-244 | the method returns `AnnouncementData` |
| Scraper.DataPass | handlers/scraper.py:81-88 | at most one record per element, each with a non-blank title and a title+link hash |
| Scraper.SelectorYield | handlers/scraper.py:76-88 | a selector yields at most `max` records |
| Scraper.FirstWhere | handlers/scraper.py:76-91 | the index of the first element satisfying the test, with none before it |
| Scraper.NothingSelected | handlers/scraper.py:77-78 | a selector that matches no element yields no record |
| Scraper.FallbackPass | handlers/scraper.py:64-91 | the yield of the first selector, in order, that yields a record; empty iff none does; at most `max` records, each valid |
| Scraper.Scrape | handlers/scraper.py:24-101 | a failed fetch gives `[]`; at most `max` records, each with a non-blank title and a title+link hash |
| Scraper.ScrapeStrategy | handlers/scraper.py:52-91 | when some detail link yields a record the result is exactly the detail pass; otherwise it is the selector fallback |
| Scraper.ExtractDetailLinks | handlers/scraper.py:55-62 | the loop returns `DetailPass` of the first `max` links |
| Scraper.ExtractElements | handlers/scraper.py:81-88 | the loop returns `DataPass` of the first `max` elements |
| Scraper.ExtractFallback | handlers/scraper.py:64-91 | the loop over selectors with `break` returns `FallbackPass` |
| Scraper.ScrapeAnnouncements | handlers/scraper.py:24-101 | the method returns `Scrape` |
| Keyboard.Pairs | start_command_test.py:44-51 | ceil(n/2) rows |
| Keyboard.PairsRows | start_command_test.py:44-51 | row `i` is labels `2i` and `2i+1`, or `2i` alone at the end |
| Keyboard.PairsShape | start_command_test.py:45-51 | every row has 1 or 2 labels; a row has 1 iff it is the last row and n is odd |
| Keyboard.PairsFlatten | start_command_test.py:44-51 | flattening the rows gives back the labels in order |
| Keyboard.PairsAppend | handlers/commands.py:59-65 | chunking an even-length prefix first does not shift the later pairs |
| Keyboard.ChunkPairs | handlers/commands.py:59-65 | the `range(0, n, 2)` loop builds exactly `Pairs` |
| Keyboard.OnePerRow | handlers/commands_production.py:46-47 | one row per label, in order |
| Keyboard.OnePerRowFlatten | handlers/commands_production.py:46-47 | one-per-row rows flatten back to the labels |
| Keyboard.WithFallback | handlers/commands.py:35-48 | never empty; the loaded list when it is non-empty, the five test departments otherwise |
| Keyboard.TypeFirstGuard | handlers/commands.py:24-31 | the guard as written: admitted iff a user exists and the chat is private; raises iff the chat is missing |
| Keyboard.CheckedGuard | start_command_test.py:108-109 | admitted under the same condition, never raises, and agrees with the written guard whenever a chat exists |
| Keyboard.MissingChatRaises | handlers/commands.py:24-26 | an update without a chat makes the written guard raise |
| Production.FormatAnnouncementMessage | handlers/commands_production.py:279-293 | the message starts with the department header and the title line |
| Production.Shown | handlers/commands_production.py:285-291 | exactly the optional sections whose value is non-empty; order by `Production.ShownAppend` and `Production.ShownSingle` |
| Production.ShownAppend | handlers/commands_production.py:285-291 | the filter over a concatenation is the filter over each part in turn, so section order is kept |
| Production.ShownSingle | handlers/commands_production.py:285-291 | one section is shown exactly when its field is non-empty |
| Production.AppendSectionsRenders | handlers/commands_production.py:285-291 | appending the optional sections one by one renders exactly the non-empty ones |
| Production.FormatShowsPresentSections | handlers/commands.py:371-385 | the message is the header, then the title line, then the date, summary and link sections, each present iff its field is non-empty, in that order |
| Production.SendAnnouncementToUser | handlers/commands_production.py:259-276 | true iff Telegram accepts the formatted message; a failure is `false`, never an error |
| Production.NewRecords | main.py:104-107 | exactly the scraped records whose pair is not yet sent, in scrape order |
| Production.NewRecordsNoneLeft | main.py:104-107 | when every scraped record is sent, nothing is new |
| Production.NewRecordsAppend | main.py:104-107 | the filter keeps order: it distributes over concatenation |
| Production.SelectNew | main.py:104-107 | the filtering loop over the store returns `NewRecords` |
| Production.MarkAllEffect | main.py:128-133 | after marking a list, a pair is sent iff it was before or it belongs to the department and a listed record has its hash; one row per pair is preserved |
| Production.MarkAll | main.py:128-133 | marking only appends to the sent table, at most one row per record; the effect is in `Production.MarkAllEffect` |
| Production.MarkAllMarks | main.py:128-133 | every listed record is marked for the department |
| Production.MarkEach | main.py:128-133 | the marking loop leaves `sent` as `MarkAll` of the old table; users unchanged; invariant kept |
| Production.SendThenMark | handlers/commands_production.py:163-165 | two events per new record |
| Production.SendThenMarkPairs | handlers/commands_production.py:163-165 | event `2i` is the attempt for record `i` and event `2i+1` marks it: each record is marked right after its own send attempt, in order |
| Production.SendThenMarkOffers | handlers/commands_production.py:163-165 | every attempt goes to the requester, for the requester's department, with one of the new records |
| Production.UpdateStops | handlers/commands_production.py:130-152 | with no subscription nothing is scraped and the store is unchanged; a reply other than "found" leaves the store unchanged and performs no send |
| Production.UpdateDeliversOnlyNew | handlers/commands_production.py:146-165 | only unsent records among at most 3 scraped are offered, only to the requester; afterwards all of them are marked; other departments are untouched |
| Production.UpdateTwiceDeliversNothing | handlers/commands.py:196-215 | repeating `/update` against the same page attempts no delivery |
| Production.UpdateCommand | handlers/commands_production.py:118-174 | the handler's reply, effects and new sent table are `Update`'s; users unchanged; invariant kept |
| Production.Update | handlers/commands_production.py:118-174 | the sent table changes only on a "found" reply, and then only by appending; a "found" reply counts 1 to 3 records; at most one scrape and two events per record; the rest is in `Production.UpdateStops`, `Production.UpdateDeliversOnlyNew` and `Production.UpdateTwiceDeliversNothing` |
| Production.DeliverThenMark | handlers/commands_production.py:163-165 | the send-then-mark loop produces `SendThenMark` and leaves `sent` as `MarkAll` |
| Production.DisplayName | handlers/commands_production.py:198 | never empty, and the username whenever one is present |
| Production.SubscribeRegisters | handlers/commands_production.py:194-201 | a department name subscribes the user: that user's row is active, under the display name, for that department; one row per user is kept |
| Production.SubscribeMarksCurrent | handlers/commands_production.py:217-232 | every record the department page shows now (at most 2) is marked without being delivered, and no other department changes |
| Production.SelectionRejects | handlers/commands_production.py:188-256 | the help button and an unknown text leave both tables unchanged |
| Production.SubscribeUser | handlers/commands_production.py:193-240 | the department branch against the store produces `Subscribe`'s result; invariant kept |
| Production.Subscribe | handlers/commands_production.py:193-256 | a text is rejected exactly when it names no department, and then nothing changes; a subscription names that department; the sent table is only appended to; the rest is in `Production.SubscribeRegisters` and `Production.SubscribeMarksCurrent` |
| Production.HandleDepartmentSelection | handlers/commands_production.py:176-256 | the handler produces `Selection`'s result; invariant kept |
| Production.Selection | handlers/commands_production.py:176-256 | help is shown exactly for the help button; any reply but a subscription leaves both tables unchanged |
| Production.StartCommand | handlers/commands_production.py:18-84 | a menu iff the guard admits; then n + 1 rows, row `i` is the `i`-th sorted department, the last row is the help button, and the department rows flatten to the sorted list |
| Commands.MenuShape | handlers/commands.py:53-69 | ceil(n/2) + 2 rows, the last two are the special rows, and the department rows flatten to the sorted list, a permutation of the input |
| Commands.MenuFor | handlers/commands.py:53-69 | ceil(n/2) + 2 rows ending with the special rows; the department rows are in `Commands.MenuShape` |
| Commands.StartCommand | handlers/commands.py:18-110 | a menu iff the guard admits, and then it is the two-per-row menu of the loaded departments or of the test ones |
| Commands.SelectionLeavesStore | handlers/commands.py:274-348 | the statistics, help and hide buttons and an unknown text change neither table, and each gets its own reply |
| Commands.HandleDepartmentSelection | handlers/commands.py:262-348 | the handler produces `Commands.Selection`'s result; invariant kept |
| Commands.Selection | handlers/commands.py:262-348 | statistics, help and hide are each shown exactly for their button; any reply but a subscription leaves both tables unchanged |
| StartCommandScript.StartCommandTest | start_command_test.py:18-97 | a menu iff the guard admits; then three rows of the five test departments in input order, the last holding only the fifth, flattening back to the list |
| StartCommandScript.StartCommandRobust | start_command_test.py:101-154 | a menu iff the guard admits; then the unsorted pairs of the loaded list or of the test list, ceil(n/2) rows, flattening back to it |
| KeyboardSimple.PairRows | test_keyboard_simple.py:23-24 | floor(n/2) pair rows |
| KeyboardSimple.DepartmentRowsArePairs | test_keyboard_simple.py:15-28 | the comprehension plus the odd last row give exactly the rows of the loop in handlers/commands.py |
| KeyboardSimple.KeyboardLogic | test_keyboard_simple.py:7-53 | every check of the script passes, and the keyboard is the two-per-row menu of `handlers/commands.py` |
| KeyboardSimple.TestKeyboardLogic | test_keyboard_simple.py:7-53 | on the five test departments the checks pass and the keyboard has 5 rows |
| Scheduler.Offers | main.py:114-125 | one attempt per record |
| Scheduler.Marks | main.py:128-133 | one mark per record |
| Scheduler.Delivered | main.py:122-123 | at most one success per event |
| Scheduler.DeliveredAppend | main.py:122-123 | the success count adds up over concatenation |
| Scheduler.Fanout | main.py:113-125 | the nested loop makes exactly users × records attempts; what they are is in `Scheduler.FanoutSound` and `Scheduler.FanoutComplete` |
| Scheduler.FanoutSound | main.py:113-125 | every attempt is for the department, with a new record, to a subscriber |
| Scheduler.FanoutComplete | main.py:113-125 | every subscriber is offered every new record |
| Scheduler.OffersCover | main.py:114-125 | one user's attempts are exactly the records, each offered |
| Scheduler.MarksAreMarks | main.py:128-133 | the marking phase contains only marks for the department |
| Scheduler.RoundSkips | main.py:85-101 | no subscribers or no URL: nothing scraped, sent or marked; nothing new: nothing sent or marked |
| Scheduler.RoundEvents | main.py:97-133 | with new records a round is: scrape, all attempts, then all marks; the table gets the new records marked |
| Scheduler.RoundOffersNew | main.py:104-125 | attempts carry only new records, only to subscribers, and every subscriber–record pair is attempted |
| Scheduler.RoundSendsBeforeMarks | main.py:113-133 | no attempt follows a mark: every delivery is tried before any record is marked |
| Scheduler.RoundCounts | main.py:113-124 | the count is the number of successful attempts, at most subscribers × new records |
| Scheduler.RoundMarksScraped | main.py:104-133 | afterwards every scraped record is sent for the department, whatever the send outcomes; other departments are untouched |
| Scheduler.RoundKeepsSent | main.py:128-133 | a round never unmarks a pair |
| Scheduler.MarksDeliverNothing | main.py:128-133 | the marking phase counts no deliveries |
| Scheduler.Without | main.py:138-140 | exactly the departments that do not fail |
| Scheduler.WithoutAppend | main.py:138-140 | dropping the failing departments works run by run, so the configured order is kept |
| Scheduler.WithoutSingle | main.py:138-140 | one department is kept exactly when it does not fail |
| Scheduler.FailingIsAbsent | main.py:82-83 | a failing department is as if it were not in the list: the others are processed just the same |
| Scheduler.CycleKeepsSent | main.py:82-140 | the check never unmarks a pair |
| Scheduler.CycleIsolates | main.py:82-140 | a department not processed, or failing, keeps its sent pairs exactly |
| Scheduler.CycleCounts | main.py:80-143 | the returned total is the number of successful attempts in the whole check |
| Scheduler.CycleCovers | main.py:104-133 | after a check, every record scraped for a processed department with subscribers and a URL is marked |
| Scheduler.CoveredDeliversNothing | main.py:104-133 | when everything on the pages is marked, a check attempts no delivery |
| Scheduler.CycleTwiceDeliversNothing | main.py:104-133 | re-running the check against the same pages delivers nothing |
| Scheduler.SendToUser | main.py:114-125 | the inner loop makes `Offers` and counts its successes |
| Scheduler.SendToAll | main.py:113-125 | the nested loop makes `Fanout` and counts its successes |
| Scheduler.CheckDepartment | main.py:84-133 | one department against the store gives `Round`'s table, effects and count; users unchanged; invariant kept |
| Scheduler.Round | main.py:84-133 | the sent table is only appended to, and changes only when the department has active subscribers; the count is at most the number of events; the rest is in the `Scheduler.Round…` lemmas |
| Scheduler.CheckAllDepartments | main.py:75-143 | the loop over departments gives `Cycle`'s table, effects and total; users unchanged; invariant kept |
| Scheduler.Cycle | main.py:75-143 | the sent table is only appended to; the total is at most the number of events; the rest is in the `Scheduler.Cycle…` lemmas |
| Scheduler.ScheduledTick | main.py:145-163 | one tick runs the check, then sweeps with a 30-day retention exactly when the hour is 2 |

## Left out

- Telegram I/O:
  - message texts, `reply_text`, `ReplyKeyboardMarkup`/`ReplyKeyboardRemove`, Markdown;
  - the welcome, help, stats, hide, status, permissions and test-keyboard texts;
  - `error_handler`.
  - A send is the `Bot` function's answer; a handler's reply is a datatype.
- The second message `start_command` sends when the first fails is not modelled; only the
  keyboard is.
- HTTP (`requests`), HTML parsing (BeautifulSoup) and `urljoin` are foreign libraries. The
  page is given pre-parsed, and URL resolution is a parameter that may fail.
- `scraper.test_scraping` and the `__main__` blocks of scraper.py and database.py are
  demos; they are not modelled.
- Python's `hash()` is seeded per process: the fingerprint is a parameter, and nothing is
  claimed about fingerprints surviving a restart.
- Persistence: TinyDB and the JSON file are not modelled. The tables and the JSON map are
  held in memory, and so are `_load_data` and `_save_data`.
- Clocks:
  - the current time and the hour are parameters, with one `now` per operation;
  - the source takes a fresh `time.time()` for each row it writes and for the cleanup,
    separately from the hour `scheduled_check_job` reads.
- asyncio: `sleep`, the 30-minute wait, the `while True` loop with its 60-second retry,
  and concurrency between `/update`, subscriptions and the periodic check. Each operation
  is modelled as atomic.
- Logging and standard output.
- Scheduler.Cycle: an exception is modelled only when it stops a department before it has
  any effect (the `failing` set). A department that raises after some sends, or between
  two marks, is not modelled.
- Scheduler.SendToAll: a send that raises is not modelled apart from one that returns
  `False`; `send_announcement_to_user` already turns failures into `False`.
- Text.SearchDate: `\d` is taken as the ASCII digits `0`–`9`. Python's `re` also accepts
  other Unicode digits.
- Scraper.Scrape: `max_announcements` is a `nat`. The negative slice bounds Python would
  accept are not modelled.
- Production.Subscribe: a reply that raises is not modelled. The confirmation at
  handlers/commands_production.py:215 is outside the `try`, and the "Bağlantı başarılı"
  reply at :224-226 comes before the marks, so `Production.SubscribeMarksCurrent` holds
  only when those replies succeed.
- Production.Update: a reply that raises is not modelled. The reply at
  handlers/commands_production.py:161 comes before the sends and the marks, so
  `Production.UpdateDeliversOnlyNew` holds only when that reply succeeds.
- `test_department_import` in test_keyboard_simple.py only imports the module and prints.
- The development handlers' `help_command`, `hide_keyboard_command`, `stats_command` text,
  `status_command`, `permissions_command` and `test_keyboard_command` are reply texts
  only.

## Findings

| source | as written | input that shows it | evidently intended | confidence | as-written member | corrected member |
|---|---|---|---|---|---|---|
| handlers/commands.py:24-31 | `/start` reads `chat.type` before it tests `not chat`. The same order is in handlers/commands_production.py:24-31 and start_command_test.py:27-34. | an update whose `effective_chat` is `None`: the type test raises instead of returning | test for a missing user or chat first and return quietly, as `start_command_robust` does (start_command_test.py:108-109) | not executed; low impact, since command updates normally carry a chat | Keyboard.TypeFirstGuard (Keyboard.MissingChatRaises) | Keyboard.CheckedGuard |

Every `/start` handler in the model uses `Keyboard.CheckedGuard`.
