# painel-esus: a Dafny model of the call queue, the call intake and the display helpers

painel-esus pages patients in a health unit. A browser extension reads the patient's name off a
card of the clinical record system and asks the backend to call that patient. The backend records
the call and puts one announcement into an audio queue. The queue is served one announcement at a
time: `getNextAudio` hands out the next one and `finishAudio` closes it. The waiting-room panel page
shows a clock beside placeholder names; it holds no audio code.

This project models the logic of that flow and proves its properties:

- **Schema** (`schema.dfy`): the `sector`, `call` and `audio_queue` tables as sequences of rows.
  They sit in a `Database` class together with the value NOW() reads and the next id of each table's
  sequence. `WellFormed` collects what the model assumes of the tables. Unique sector names are the
  only constraint the code itself rests on, as the target of `ON CONFLICT (name)`. Unique primary
  keys, the foreign keys from calls to sectors and from queue entries to calls, and "no row is
  stamped after NOW()" are assumptions: no table definition is part of this model. The services are
  proved to keep all of them.
- **AudioService** (`audio.dfy`): `getNextAudio` and `finishAudio`. Each is one method on the
  `Database`, and each is tied to a step function on the table values (`Next`, `Finish`). The lemmas
  are about those functions:
  - nothing starts while an entry is `playing`;
  - the oldest `pending` entry is promoted and returned with its call's and sector's names;
  - "at most one entry is `playing`" is preserved;
  - `finishAudio` is idempotent and touches one entry only.
- **CallService** (`call.dfy`): `createCall` is the sector upsert, the call insert and the queue
  insert done step by step. A failing statement rolls back to the state at BEGIN. `listCalls` joins
  every call with its sector's name and sorts them newest first.
- **SectorService** (`sector.dfy`): the `findAllGroupedByArea` loop. It keeps one group per area in
  order of first appearance, each group listing its sectors in row order. The loop is proved equal
  to a fold, and the grouping properties are proved about that fold.
- **Extension** (`extension.dfy`): the content script's text logic:
  - the whitespace normaliser `replace(/\s+/g, " ").trim()`;
  - the patient-name heuristic `getNomePaciente`;
  - `getUsuarioLogado`;
  - the loop of `hasExactText`.
- **Panel** (`panel.dfy`): the panel's `HH:MM` and `DD/MM/YYYY` strings, with proofs that they read
  back as the fields they were built from.

Some descriptions of this system go further than its code. The model follows the code:

- the `playing` check of `getNextAudio` is global (its query has no `WHERE` on the sector), so at
  most one entry plays across all sectors;
- `createCall` creates the call directly in `calling` with `started_at = NOW()`, not in a waiting
  state;
- there are no attempt counters, expiry deadlines, retry operation, row locks or dispatch loop.

Several choices fill in what the code leaves open:

- Tie-breaks that SQL leaves open are fixed:
  - among pending entries with equal `created_at`, the one inserted first is served first;
  - among calls with equal `created_at`, `listCalls` puts the one inserted later first.
- Database failures are inputs. `fault` or `failAt` names the statement that throws.
- Rollback means a snapshot of the database is unchanged.
- The clock is the `now` field. The model assumes that every NOW() and `created_at` default within
  one transaction reads the same value, and that the clock never goes back: `AdvanceClock` only
  moves it forward between transactions. That is why no row can be stamped in the future.

## Model

| member | source | states |
|---|---|---|
| Schema.SetStatus | apps/backend/src/audio/audio.service.ts:55-58 | `UPDATE audio_queue SET status = $s WHERE id = $1` on the table value; no contract beyond keeping the length, and what it does is stated by `SetStatusAt` |
| Schema.SetStatusAt | apps/backend/src/audio/audio.service.ts:55-58 | with unique ids, `UPDATE audio_queue SET status WHERE id` rewrites exactly the entry with that id and leaves every other entry as it was |
| Schema.SetStatusKeepsWellFormed | apps/backend/src/audio/audio.service.ts:55-58 | a status update keeps every key, foreign key and timestamp constraint of the schema |
| Schema.Database.Restore | apps/backend/src/call/call.service.ts:71-73 | ROLLBACK gives every table and id sequence back the value it had at BEGIN |
| AudioService.JoinEntry | apps/backend/src/audio/audio.service.ts:37-40 | the two joins and the selected columns for one entry; stated by `JoinEntryMatches` and `WellFormedEntryJoins` |
| AudioService.JoinEntryMatches | apps/backend/src/audio/audio.service.ts:37-40 | a joined row consists of the entry's id, the names of a call with the entry's `call_id` and the name of a sector with that call's `sector_id`; the join is empty only when the call or its sector is missing |
| AudioService.WellFormedEntryJoins | apps/backend/src/audio/audio.service.ts:38-40 | under the schema's foreign keys every queue entry survives both joins |
| AudioService.OldestAmong | apps/backend/src/audio/audio.service.ts:41-43 | the entry picked among the first n rows is pending, joins, and precedes every other such entry by `created_at` and then by position; none is picked only when none qualifies |
| AudioService.OldestPending | apps/backend/src/audio/audio.service.ts:35-45 | the `ORDER BY aq.created_at LIMIT 1` row is the oldest eligible pending entry; there is none exactly when no entry is eligible |
| AudioService.OldestPendingUnique | apps/backend/src/audio/audio.service.ts:42-43 | the tie-broken order has a single first element |
| AudioService.Next | apps/backend/src/audio/audio.service.ts:24-62 | the committed getNextAudio transaction as a step function on the tables; stated by the `Next...` lemmas below and tied to the method by `GetNextAudio` |
| AudioService.NextWhilePlaying | apps/backend/src/audio/audio.service.ts:24-32 | while some entry is `playing`, getNextAudio returns null and changes no table |
| AudioService.NextWithoutPending | apps/backend/src/audio/audio.service.ts:47-50 | without an eligible pending entry, getNextAudio returns null and changes no table |
| AudioService.NextNullIff | apps/backend/src/audio/audio.service.ts:24-50 | getNextAudio returns null if and only if an entry is playing or no entry is eligible |
| AudioService.NextPromotesOldest | apps/backend/src/audio/audio.service.ts:52-62 | with nothing playing, exactly the oldest pending entry becomes `playing`, all other entries and the call and sector tables stay unchanged, and the returned row is that entry's join |
| AudioService.NextReturnsOldest | apps/backend/src/audio/audio.service.ts:35-62 | a returned row belongs to the oldest eligible pending entry, and no entry was playing before the call |
| AudioService.NextKeepsWellFormed | apps/backend/src/audio/audio.service.ts:52-58 | getNextAudio keeps the schema's constraints |
| AudioService.NextKeepsAtMostOnePlaying | apps/backend/src/audio/audio.service.ts:25-58 | getNextAudio keeps "at most one entry is playing"; after a promotion the returned entry is the only one playing |
| AudioService.Finish | apps/backend/src/audio/audio.service.ts:78-81 | the finishAudio UPDATE as a step function on the tables; stated by the `Finish...` lemmas below and tied to the method by `FinishAudio` |
| AudioService.FinishMarksDone | apps/backend/src/audio/audio.service.ts:78-81 | finishAudio sets the entry with the id to `done` whatever its status, and changes no other field, no other entry and no other table |
| AudioService.FinishUnknownId | apps/backend/src/audio/audio.service.ts:78-83 | finishAudio with an id no entry has leaves the database unchanged (and still answers success) |
| AudioService.FinishIdempotent | apps/backend/src/audio/audio.service.ts:78-81 | finishing twice is finishing once |
| AudioService.FinishKeepsWellFormed | apps/backend/src/audio/audio.service.ts:78-81 | finishAudio keeps the schema's constraints |
| AudioService.FinishKeepsAtMostOnePlaying | apps/backend/src/audio/audio.service.ts:78-81 | finishAudio never makes a second entry playing |
| AudioService.FinishThenNext | apps/backend/src/audio/audio.service.ts:24-58 | while an entry plays getNextAudio returns null; after finishAudio on that entry the next getNextAudio returns a row if an eligible pending entry exists |
| AudioService.GetNextAudio | apps/backend/src/audio/audio.service.ts:18-69 | the transaction leaves the database as `Next` says and returns its row, or on a failing query rolls back and reports the error; the schema's constraints hold afterwards |
| AudioService.FinishAudio | apps/backend/src/audio/audio.service.ts:74-87 | the UPDATE leaves the database as `Finish` says and answers `{ success: true }`, or throws and leaves it unchanged |
| CallService.SectorNamed | apps/backend/src/call/call.service.ts:31-35 | the `ON CONFLICT (name)` lookup finds a sector with that name exactly when the name is taken |
| CallService.UpsertSector | apps/backend/src/call/call.service.ts:29-40 | an existing name returns its sector's id and changes nothing; a new name appends one sector with an id below the new sequence value; only the sector table and its sequence change |
| CallService.Create | apps/backend/src/call/call.service.ts:29-67 | the committed createCall transaction as a step function on the tables; stated by the `Create...` lemmas below and tied to the method by `CreateCall` |
| CallService.CreateUpsertsSector | apps/backend/src/call/call.service.ts:29-40 | createCall reuses the id of an existing sector name and leaves the sector table alone, or adds exactly one sector with a fresh id; the table grows by at most one row |
| CallService.SameSectorNameSameId | apps/backend/src/call/call.service.ts:33-35 | two createCalls with the same sector name give their calls the same `sector_id` |
| CallService.CreateInsertsCall | apps/backend/src/call/call.service.ts:43-56 | the new call is `calling`, carries the given names, the upserted sector's id, `started_at` and `created_at` equal to NOW() and a fresh id, and is appended with the older calls unchanged |
| CallService.CreateEnqueuesOne | apps/backend/src/call/call.service.ts:61-67 | exactly one queue entry is appended: `pending`, for the new call, with a fresh id and NOW() as `created_at`; older entries are unchanged |
| CallService.CreateKeepsWellFormed | apps/backend/src/call/call.service.ts:29-67 | createCall keeps the schema's constraints |
| CallService.CreateKeepsAtMostOnePlaying | apps/backend/src/call/call.service.ts:61-67 | the new entry is pending, so "at most one entry is playing" survives createCall |
| CallService.CreateJoinsNewEntry | apps/backend/src/call/call.service.ts:43-67 | the new queue entry joins with the new call and with the sector carrying the given name |
| CallService.CreateThenNextPlaysIt | apps/backend/src/call/call.service.ts:61-67 | when every older entry is done, the next getNextAudio plays the new entry and returns the given patient, doctor and sector names |
| CallService.CreateCall | apps/backend/src/call/call.service.ts:18-77 | all or nothing: a failing statement rolls every table back to BEGIN and reports the error; otherwise the database becomes `Create`'s and the inserted call is returned |
| CallService.ConsNewestFirst | apps/backend/src/call/call.service.ts:94 | a row at least as new as the head of a newest-first list can go in front of it |
| CallService.InsertNewestFirst | apps/backend/src/call/call.service.ts:94 | inserting into a newest-first list keeps it newest first and adds exactly that row |
| CallService.SortNewestFirst | apps/backend/src/call/call.service.ts:94 | the result is newest first and a permutation of the input |
| CallService.ListCalls | apps/backend/src/call/call.service.ts:83-98 | listCalls is newest first and holds exactly the rows of the call/sector join |
| CallService.JoinCalls | apps/backend/src/call/call.service.ts:92-93 | `FROM call c JOIN sector s ON s.id = c.sector_id` in call-table order; stated by `JoinCallsComplete` and `ListCallsEveryCallOnce` |
| CallService.JoinCallsComplete | apps/backend/src/call/call.service.ts:92-93 | when every call's sector exists, the join has one row per call, built from that call and its sector |
| CallService.ListCallsEveryCallOnce | apps/backend/src/call/call.service.ts:84-95 | listCalls returns every call exactly once, with the name of its sector, and nothing else |
| SectorService.AddRow | apps/backend/src/sector/sector.service.ts:33-46 | one turn of the loop on the groups as values; stated by `LoopStep`, `GroupedAppend` and `FirstRowStep` |
| SectorService.Grouped | apps/backend/src/sector/sector.service.ts:31-48 | the loop as a fold over the rows; stated by the `Grouped...` lemmas below, and `FindAllGroupedByArea` proves the loop equal to it |
| SectorService.OpenGroup | apps/backend/src/sector/sector.service.ts:34-40 | opening a group for a new area keeps the Map's index up to date |
| SectorService.PushKeepsIndexes | apps/backend/src/sector/sector.service.ts:42-45 | pushing a sector onto a group keeps the Map's index up to date |
| SectorService.LoopStep | apps/backend/src/sector/sector.service.ts:33-46 | one turn of the loop is one step of the fold, and keeps the index valid |
| SectorService.FindAllGroupedByArea | apps/backend/src/sector/sector.service.ts:31-48 | the loop returns the fold `Grouped` of the rows |
| SectorService.GroupedAppend | apps/backend/src/sector/sector.service.ts:33-46 | one more row is one more loop step on the groups so far |
| SectorService.SectorsInEmptyIff | apps/backend/src/sector/sector.service.ts:42-45 | an area has sectors exactly when some row names it |
| SectorService.GroupedAreaIds | apps/backend/src/sector/sector.service.ts:31-40 | the groups' area ids are distinct and equal the set of the rows' area ids |
| SectorService.GroupedSectors | apps/backend/src/sector/sector.service.ts:42-45 | each group holds the sectors of exactly its area's rows, in row order |
| SectorService.GroupedAreaNames | apps/backend/src/sector/sector.service.ts:34-39 | a group's area name comes from the first row of its area |
| SectorService.FirstRowStep | apps/backend/src/sector/sector.service.ts:31-48 | after one more row the old groups keep their first rows and a new group starts at the new row |
| SectorService.GroupedOrder | apps/backend/src/sector/sector.service.ts:31-48 | groups appear in the order in which their areas first appear among the rows |
| SectorService.GroupsCoverAreas | apps/backend/src/sector/sector.service.ts:33-45 | one group per distinct area id of the rows, and no group is empty |
| SectorService.TotalSectorsAppend | apps/backend/src/sector/sector.service.ts:35-39 | a new group adds its sectors to the total |
| SectorService.TotalSectorsPush | apps/backend/src/sector/sector.service.ts:42-45 | a push adds one sector to the total |
| SectorService.GroupedTotal | apps/backend/src/sector/sector.service.ts:42-45 | each row gives exactly one sector entry: the groups hold as many entries as there are rows |
| Extension.Trim | apps/extension/content.js:91 | `trim()`: leading then trailing white space dropped; stated by `TrimShape` |
| Extension.Normalize | apps/extension/content.js:57 | `replace(/\s+/g, " ").trim()`; stated by `NormalizeIsNormal`, `NormalizeJoinsWords` and `NormalizeIdempotent` |
| Extension.ToUpper | apps/extension/content.js:67 | `toUpperCase()` for Basic Latin and Latin-1, character by character; used by `IsCandidate` |
| Extension.IsCandidate | apps/extension/content.js:61-70 | the six rules of the filter, in the order the code tests them; stated for the name found by `NomeIsCandidate` |
| Extension.GetNomePaciente | apps/extension/content.js:47-76 | the whole heuristic over the spans' `textContent`; stated by `NomeIsCandidate`, `NomeIsEarliestLongest` and `NomeEmptyIff` |
| Extension.NonSpaceAppend | apps/extension/content.js:57 | the non-space characters of a concatenation are those of its parts |
| Extension.SkipSpaces | apps/extension/content.js:91 | dropping leading white space leaves a suffix that starts with a non-space character |
| Extension.TrimEnd | apps/extension/content.js:91 | dropping trailing white space leaves a prefix that ends with a non-space character |
| Extension.SkipSpacesKeepsText | apps/extension/content.js:91 | dropping leading white space keeps every non-space character |
| Extension.TrimEndKeepsText | apps/extension/content.js:91 | dropping trailing white space keeps every non-space character |
| Extension.TrimShape | apps/extension/content.js:91 | `trim` keeps one contiguous slice with no white space at either end and every non-space character in order |
| Extension.TrimKeepsCollapsed | apps/extension/content.js:57 | trimming does not bring back tabs, line breaks or double spaces |
| Extension.Collapse | apps/extension/content.js:57 | `replace(/\s+/g, " ")` leaves only plain single spaces and starts with white space exactly when its input does; `CollapseIsWordsJoined` says where the spaces go |
| Extension.CollapseKeepsText | apps/extension/content.js:57 | collapsing keeps every non-space character in order |
| Extension.NormalizeIsNormal | apps/extension/content.js:57 | the normalised text has only single plain spaces, none at either end, and every non-space character of the input |
| Extension.WordsAreWords | apps/extension/content.js:57 | the words of a text, read left to right between runs of white space, are non-empty and hold no white space |
| Extension.CollapseIsWordsJoined | apps/extension/content.js:57 | collapsing gives the words joined by single spaces, with one space in front exactly when the text starts with white space and one behind exactly when it has a word and ends with white space |
| Extension.NormalizeJoinsWords | apps/extension/content.js:57 | the normalised text is the words of the input, in order, joined by single spaces: each run of white space between two words becomes exactly one space at that place |
| Extension.CollapseFixes | apps/extension/content.js:57 | collapsing text that has only single plain spaces changes nothing |
| Extension.NormalizeFixesNormal | apps/extension/content.js:57 | normalising already normal text changes nothing |
| Extension.NormalizeIdempotent | apps/extension/content.js:57 | normalising twice is normalising once |
| Extension.NonEmpty | apps/extension/content.js:58 | `filter(Boolean)` keeps exactly the non-empty texts |
| Extension.NonEmptyAppend | apps/extension/content.js:58 | `filter(Boolean)` keeps order: filtering a concatenation is filtering each part and concatenating |
| Extension.SpanTexts | apps/extension/content.js:56-58 | the texts considered are exactly the non-empty normalised span texts |
| Extension.Candidates | apps/extension/content.js:61-70 | the candidates are exactly the considered texts that pass every rule of the filter |
| Extension.KeepAppend | apps/extension/content.js:61-70 | `filter` with any predicate keeps order: filtering a concatenation is filtering each part and concatenating |
| Extension.CandidatesAppend | apps/extension/content.js:61-70 | the name filter keeps order: the candidates of a concatenation are those of each part, in order |
| Extension.KeepNonEmptyAppend | apps/extension/content.js:58-70 | one more span text adds itself at the end of the candidates exactly when it is non-empty and passes the filter |
| Extension.FirstLongest | apps/extension/content.js:73-75 | the picked candidate is a longest one, and no earlier candidate is as long |
| Extension.NomeIsCandidate | apps/extension/content.js:47-70 | a name found holds no blacklist label and no "anos", is not `dd:dd`, has at least eight characters, equals its upper-case form, holds a capital letter, is normalised, and is some span's text |
| Extension.NomeIsFirstLongest | apps/extension/content.js:72-75 | the name found is a longest candidate and the earliest of that length |
| Extension.EarliestLongestKept | apps/extension/content.js:58-75 | over any texts and any filter, the first longest kept text is text `i` of the input: no kept text is longer and every kept text before `i` is strictly shorter |
| Extension.NomeIsEarliestLongest | apps/extension/content.js:56-75 | the name found is the normalised text of some span `i`; no span's normalised text that passes the filter is longer; every earlier span whose text passes the filter is strictly shorter |
| Extension.NomeEmptyIff | apps/extension/content.js:75 | getNomePaciente returns "" exactly when no normalised span text passes the filter |
| Extension.LoggedUser | apps/extension/content.js:78-84 | the user name is "" when the menu element is missing, and otherwise the words of the element's text joined by single spaces; it is normalised text and keeps every non-space character |
| Extension.HasExactText | apps/extension/content.js:87-94 | hasExactText is true exactly when some element's trimmed text equals the target |
| Panel.Pad2 | apps/panel/src/app/page.tsx:29-30 | `n.toString().padStart(2, "0")`; stated by `Pad2Shape` and `ParsePad2` |
| Panel.Time | apps/panel/src/app/page.tsx:29-30 | the `${hours}:${minutes}` string; stated by `TimeRoundTrip` and `TimeInjective` |
| Panel.Date | apps/panel/src/app/page.tsx:33-35 | the `${day}/${month}/${year}` string; stated by `DateLayout` and `DateFields` |
| Panel.DigitChar | apps/panel/src/app/page.tsx:29 | a digit value below ten becomes a decimal digit |
| Panel.Decimal | apps/panel/src/app/page.tsx:29 | `toString()` of a natural number is a non-empty string of digits without a leading zero, one character long exactly below ten |
| Panel.IntString | apps/panel/src/app/page.tsx:35-38 | `toString()` of an integer is non-empty and starts with '-' exactly for negative numbers |
| Panel.PadStart2 | apps/panel/src/app/page.tsx:29 | `padStart(2, "0")` puts zeros in front up to length two and leaves longer strings unchanged |
| Panel.DecimalRoundTrip | apps/panel/src/app/page.tsx:29 | the digits `toString()` writes read back as the number |
| Panel.LeadingZeroValue | apps/panel/src/app/page.tsx:29 | a leading zero does not change the value read back |
| Panel.Pad2Shape | apps/panel/src/app/page.tsx:29-34 | the padding puts a single "0" before 0 to 9 and leaves 10 and above unchanged; fields below 100 have exactly two digits and read back as the number |
| Panel.ParsePad2 | apps/panel/src/app/page.tsx:33-34 | a padded field reads back as the number it shows |
| Panel.TimeRoundTrip | apps/panel/src/app/page.tsx:29-37 | for hours 0 to 23 and minutes 0 to 59 the time string has length 5, ':' at index 2, and reads back as those hours and minutes |
| Panel.TimeInjective | apps/panel/src/app/page.tsx:37 | two different clock readings never show the same text |
| Panel.IntStringRoundTrip | apps/panel/src/app/page.tsx:35-38 | the unpadded year reads back as the year, sign included |
| Panel.DateLayout | apps/panel/src/app/page.tsx:38 | with two-character day and month, the separators sit at indexes 2 and 5 and the year starts at index 6 |
| Panel.DateFields | apps/panel/src/app/page.tsx:33-38 | the date string holds the padded day, the month as `getMonth() + 1` (0 to 11 shows as 01 to 12) and the unpadded year, each reading back as its field |

## Left out

- The `pg` Pool, `connect`/`release` and the literal BEGIN/COMMIT/ROLLBACK statements are I/O. Each service transaction is one method on the `Database`, and a rollback restores the snapshot taken at BEGIN.
- Concurrency between transactions is not modelled. `getNextAudio` takes no row lock and no SKIP LOCKED, so two simultaneous calls could both find nothing playing. A sequential model cannot show that race.
- Which database error happens, and when, is not modelled: a fault is an input. The error object that is rethrown is not modelled either.
- Id sequences are modelled only as fresh values. PostgreSQL also uses up a sequence value on a conflicting upsert or a rolled-back insert, so real ids can have gaps. The model does not produce those gaps.
- The `area` table, `sector.area_id` and the join query in `findAllGroupedByArea` are not modelled. The query's rows are the loop's input, already in `ORDER BY a.name, s.name` order.
- `tts.service.ts` (a Python process writing files), `audio-cleanup.service.ts` (a cron job deleting files), `background.js` (fetch and Chrome messaging), the controllers, the modules and `main.ts` are not part of this model. They are foreign calls, filesystem work or wiring.
- The DOM is not modelled. This covers the MutationObserver, the intervals and the debounce, the button insertion and `chrome.runtime` messaging in `content.js`. Each function works on the `textContent` strings the DOM queries would return.
- The controller passes `roomName` as the sector name, while the extension sends a `sectorId`. `createCall` is modelled by sector name, as the service takes it.
- `page.tsx` contributes only its two strings. The JSX layout, `useState` and `setInterval` are not modelled, and the `Date` getters are inputs.
- Extension.ToUpper: `toUpperCase` is modelled for Basic Latin and Latin-1 only (ß becomes "SS", ÿ becomes Ÿ, µ becomes Μ). Every other character is left unchanged, so a lower-case letter outside Latin-1 is treated as capital.
- Extension.IsCandidate: `t.length` counts UTF-16 code units, but the model counts characters. Text outside the Basic Multilingual Plane is therefore measured shorter than JavaScript measures it.
- Extension.FirstLongest: the stable `sort` of `candidatos` is modelled only by its first element, the earliest longest candidate. The order of the other candidates is not modelled.
- CallService.SortNewestFirst: `ORDER BY c.created_at DESC` leaves ties open. The model fixes one order for them, later-inserted first.
- AudioService.OldestPending: `ORDER BY aq.created_at LIMIT 1` leaves ties open. The model serves the entry inserted first.
