# Novel-Forge Tracker: the store and the chapter reconciler in Dafny

Novel-Forge Tracker is a single-user dashboard for a long-form writing
project. It tracks chapters (word counts, status, priority, deadline),
editing passes, to-dos and a metadata record, all kept in a JSON document
store with one table per collection. This project models the part of
`main.py` that does more than render widgets:

- **The write-through save** (`save_data`). Each collection is upserted by
  id into its table, skipping records whose id is falsy. Every stored
  document whose id was not submitted is then removed. For chapters the save
  also normalises a missing word count to 0 and turns the transient
  `_changed` marker into a `last_edited` stamp. It moves the stored word
  count into `previous_word_count` when the word count changed. The
  metadata record is written and the day's snapshot is taken. A chapter
  that still carries the date object the load attached makes the save
  raise partway through (see "## Findings"). Modules
  `Tables`, `ChapterSave` and `Store`.
- **Id allocation** (`get_next_id`): one more than the largest stored id,
  which is also where the store's `insert` files a new document. Module `Ids`.
- **The chapter reconciler** (main.py:569-627). It turns the rows the
  chapter table hands back into the next chapter list and decides whether a
  save is needed. Module `Reconcile`. The duplicate-id defect it has is
  shown, and corrected, in module `NewChapterIds`.
- **The countdown label** (`calculate_countdown`). Module `Countdown`.
- **The snapshot retention rule** (`create_snapshot`): one snapshot per day
  name, then only the five newest files by modification time are kept.
  Module `Snapshots`.
- **Loading** (`load_data`): each table is listed with its document ids as
  `id` fields, and the chapter defaults are filled in. Module `Store`.

Records are datatypes in module `Records`. Each table is a `map<int, _>`
from document id to document. The store is a class whose methods replace
those maps. The snapshot directory is a class holding a map from file name
to modification time. Fields a stored document may lack are `Option`s.

Dates are whole day numbers. A deadline is absent, a `YYYY-MM-DD` text for a
day, or any other text. The current time, today's date, the snapshot's file
time and whether the file copy succeeded are all parameters.

Where the program's own help text and its code disagree, the model
follows the code. The delta column's help text, "Change since last save"
(main.py:531), says the word-count delta (`word_count -
previous_word_count`, main.py:507) reads 0 right after a save in which the
word count did not change. The code instead keeps the older
`previous_word_count` in that case (main.py:153-159, and main.py:610 for the
value the reconciler carries over). So the delta keeps showing the change
made at the last save that changed the count. `ChapterSave.DeltaAfterSave`
and `Reconcile.ChangeDetectionExample` state this behaviour.

## Model

| member | source | states |
|---|---|---|
| `Records.ParseDeadline` | main.py:249-256 | The parsed date derived at load time exists exactly for a deadline that is a date text, and is that day. |
| `Records.WithDefaults` | main.py:257-261 | Defaulting fills a missing word count and previous word count with 0, a missing status with "Not Started" and a missing priority with "🟨 Low". It keeps every present field and leaves title, deadline and edit stamp alone. |
| `Records.WithDefaultsIdempotent` | main.py:257-261 | Defaulting twice equals defaulting once, and a chapter with all fields present is left as it is. |
| `Records.Loaded` | main.py:249-261 | A loaded chapter has its defaults filled in and no change marker, and carries a parsed date exactly when its deadline is a date text, namely that day. |
| `Records.WordDelta` | main.py:507 | The displayed delta is 0 when no previous count is stored. With a current count of 0 it is minus the previous count. |
| `Ids.NextFree` | main.py:271-277 | The next id is at least 1 and above every stored id. It is 1 or one more than a stored id, so it is one more than the largest. |
| `Ids.NextFreeOfEmpty` | main.py:273-277 | An empty table hands out id 1. |
| `Ids.NextFreeAfterInsert` | main.py:271-277 | Once a document is filed under the next id, the next id moves on by exactly one. |
| `Ids.NextFreeAfterUpdate` | main.py:271-277 | Writing under an id below the next id (and positive, or already stored) does not change the next id. |
| `Ids.GetNextId` | main.py:271-277 | The max-scan loop returns one more than the largest stored id (1 for an empty table), so the result exceeds every stored id. |
| `Tables.Slot` | main.py:161-164 | An upsert of a stored id updates that document. Any other id is inserted under a fresh id above every stored one. |
| `Tables.Restrict` | main.py:168-171 | The removal step keeps exactly the stored ids that were submitted, with their documents. |
| `Tables.WriteThrough` | main.py:135-171 | After the write-through, every stored id was submitted, and every previously stored id that was not submitted is gone. |
| `Tables.WriteThroughTable` | main.py:174-210 | The editing-pass and to-do loops compute the write-through of the submitted records, written as submitted. |
| `Tables.WriteThroughIsAuthoritative` | main.py:135-171 | When each submitted id is stored already or is the next id at its turn, the stored ids afterwards are exactly the submitted truthy ids. |
| `Tables.Untouched` | main.py:161-165 | Upserts of rows with other ids leave a stored document unchanged. |
| `Tables.LastWriteWins` | main.py:161-171 | The last row submitted under an id that lands on that id decides the document stored under it. |
| `Tables.InsertIgnoresSubmittedId` | main.py:163-171 | A record submitted under id 5 to an empty table is inserted as document 1 and then removed, because 1 was not submitted. |
| `ChapterSave.Prepared` | main.py:136-159 | A prepared chapter has no change marker. It is stamped with the save time iff it was marked changed. A missing word count becomes 0. The previous count becomes the stored count when that differs, 0 when nothing is stored under the id, and is otherwise kept. |
| `ChapterSave.Processed` | main.py:136-165 | The in-place edits leave every row's id alone and clear the change marker of every row with a truthy id. |
| `ChapterSave.FirstUnwritable` | main.py:161-164 | The upsert that raises is the first one of a chapter with a truthy id that carries a parsed date. No earlier chapter with a truthy id carries one. |
| `ChapterSave.UpsertChapters` | main.py:136-165 | The upsert loop runs until the first chapter whose upsert raises, or to the end. The table is the upserts of the rows before that point, and the in-memory list is prepared in place up to and including the row that raised. |
| `ChapterSave.SaveChapters` | main.py:134-171 | When no upsert raises, the chapters part computes the write-through of the prepared chapters and leaves the in-memory list prepared in place. When one raises, the rows before it are written, nothing is removed, and the list is prepared up to that row. |
| `ChapterSave.WithoutDates` | main.py:249-256 | Dropping the parsed dates keeps each row's id and document and leaves no date. |
| `ChapterSave.SaveWithoutDates` | main.py:134-171 | Corrected save: with the parsed dates dropped before the upserts, no upsert raises, and the table afterwards is the full write-through of the chapters as submitted. |
| `ChapterSave.PreviousCountFollowsWordCount` | main.py:153-159 | The previous count changes only when the word count does, and then takes the old word count. |
| `ChapterSave.DeltaAfterSave` | main.py:153-159 | After a save that changed the word count, the delta is the signed change. Otherwise it is the delta shown before. |
| `Countdown.CountdownLabel` | main.py:85-102 | The label is "N/A" iff the deadline is absent or empty, and "Invalid Date" iff it is other text. For a date: overdue by today−day iff the date is past, due today iff it is today, one day left iff it is tomorrow, otherwise day−today ≥ 2 days left. |
| `Countdown.LabelDeterminesDelta` | main.py:92-100 | The label of a dated deadline gives the day difference exactly, so different days get different labels. |
| `Countdown.NextDayCountsDown` | main.py:92-100 | One day later the label of a dated deadline shows one day less. |
| `Snapshots.Insert` | main.py:115 | Inserting into a newest-first listing keeps it newest first and adds exactly the entry. |
| `Snapshots.SortNewestFirst` | main.py:115 | Sorting by modification time, newest first, is a permutation of the listing. |
| `Snapshots.Listing` | main.py:115 | The directory listing has one entry per file, with its time. |
| `Snapshots.PruneRetains` | main.py:115-117 | Removing everything after the first five entries of the sorted listing keeps the newest files. |
| `Snapshots.UnlinkOlder` | main.py:116-117 | The unlink loop removes exactly the names after the first five, so min(5, n) files remain unchanged. |
| `Snapshots.Prune` | main.py:115-117 | The prune keeps a subset of the files, unchanged, of size min(5, n), none older than any file it removed. |
| `Snapshots.NewSnapshotSurvives` | main.py:109-117 | A snapshot newer than every other file survives the prune. |
| `Snapshots.SnapshotDir.constructor` | main.py:14 | The directory starts with the given files. |
| `Snapshots.SnapshotDir.Create` | main.py:104-120 | An existing file for the day, or a failed copy, leaves the directory unchanged. Otherwise the day's file is added and the directory is pruned. |
| `Reconcile.EditedDeadline` | main.py:584 | The date cell becomes a date text exactly when it holds a date, and that text parses back to it. |
| `Reconcile.Lookup` | main.py:575 | The lookup finds the first chapter with the row's id, or reports that none has it. |
| `Reconcile.CarriedPrevious` | main.py:610 | A matched row carries the chapter's previous count, or its word count when that is missing. |
| `Reconcile.NextRow` | main.py:574-620 | A row takes the five edited fields. If matched, it keeps the row's id, the carried previous count, and the chapter's stamp and parsed date. It is marked changed iff a compared field differs. If new, it gets the allocated id, previous count 0, the current time and no parsed date, and is marked changed. |
| `Reconcile.NextRows` | main.py:574-620 | The next list has one row per edited row, each mapped as above. |
| `Reconcile.Reconcile` | main.py:569-627 | The loop's next list gives every new row the stored table's next id. A save is needed iff some row changed or is new, or the id sets differ. The celebration fires iff a matched row's title is unchanged and its status changed to Done. |
| `Reconcile.ReconcileThenSave` | main.py:569-627 | After reconciling an edit of a stored chapter, the completed write-through holds the edited fields. The previous count is the old word count when that changed and the carried one otherwise. The chapter is stamped with the save time iff a compared field changed. If the chapter carries a parsed date, the save as written raises at this row or an earlier one. |
| `Reconcile.ChangeDetectionExample` | main.py:569-627 | With 1000 words (previous 900), raising the count to 1200 saves previous 1000, delta +200, and a new stamp. Changing only the title keeps previous 900 (delta +100). Neither save raises. |
| `Reconcile.IdAssignmentExample` | main.py:569-627 | With chapters 1, 2 and 3 stored, keeping 1 and 2, deleting 3 and adding a row leaves exactly ids 1, 2 and 4. The save as written raises at the first kept chapter that carries a parsed date, and at none if neither does. |
| `Reconcile.Shown` | main.py:499-512 | The table row shows the chapter's id and the given date cell. For a chapter with all fields present it shows the chapter's own title, status, word count and priority. |
| `Reconcile.EditorRow` | main.py:499-512 | The date cell shows the chapter's parsed date (`deadline_obj`), not its deadline text. |
| `Reconcile.EditorRows` | main.py:499-512 | The table has one row per chapter, in order. |
| `Reconcile.FixedEditorRow` | main.py:509 | Corrected date cell: the date parsed from the current deadline text, which reads back as that text unless the text is not a date. |
| `Reconcile.FixedEditorRows` | main.py:499-512 | The corrected table has one row per chapter, in order. |
| `Reconcile.FixedTableIsClean` | main.py:499-627 | With the corrected date cell, reading back an unedited table marks nothing changed, leaves the id sets equal (so no save), and gives back the same list. Needs distinct ids, all fields present and no unparsable deadline. |
| `Reconcile.UneditedTableIsClean` | main.py:499-627 | Reading back an unedited table changes nothing, as above, while every chapter's parsed date is the date of its deadline text, as right after the load. |
| `Reconcile.DeadlineEditReverted` | main.py:499-612 | A date set in the table on a chapter loaded without one is saved as its deadline. The chapter keeps no parsed date, so on the next pass its date cell is empty, and reading it back marks it changed and clears the deadline. With the corrected cell it reads back unchanged. |
| `Reconcile.MalformedDeadlineCleared` | main.py:584-608 | A chapter whose deadline text is not a date comes back changed, though nobody edited it. Its deadline is cleared when it has no parsed date, as after the load, and set to that date otherwise. |
| `NewChapterIds.NewRowsCollide` | main.py:614-620 | Two rows added to an empty project both get id 1, and after the save one chapter, the second, remains. |
| `NewChapterIds.FixedRows` | main.py:569-620 | The corrected next list maps each row as the reconciler does but numbers the new rows consecutively from the next id. |
| `NewChapterIds.FixedRowsAllSaved` | main.py:569-627 | With the corrected numbering, a new row's id differs from every other row's. After the save the stored ids are exactly the rows' ids, so every row is kept. |
| `NewChapterIds.NumberedLands` | main.py:161-165 | Rows that carry stored ids, or consecutive ids counted from the next id, all land on their own ids. |
| `Store.ListTable` | main.py:242-244 | A table listing has one row per stored document, in ascending id order, tagged with its id and holding that document. |
| `Store.WriteThroughPositive` | main.py:161-171 | The write-through never files a document under an id below 1. |
| `Store.SaveLoadedTable` | main.py:174-210 | Saving editing passes or to-dos exactly as loaded leaves their table as it was. |
| `Store.LoadedDatesBlockSave` | main.py:249-256 | Saving the chapters as loaded raises iff some stored chapter's deadline is a date, because the date the load attaches here reaches the upsert (main.py:161-164). The chapter it raises at is one of those. |
| `Store.SaveLoadedChapters` | main.py:134-171 | The completed write-through of the chapters as loaded stores each with its defaults filled in and changes nothing else. This is what the save leaves when no deadline is a date, and what the corrected save always leaves. |
| `Store.Store.constructor` | main.py:35-39 | A new store has empty tables, no metadata document, and positive ids. |
| `Store.Store.Save` | main.py:122-214 | The save writes the metadata first. If no chapter upsert raises, it writes each collection through to its table (chapters prepared), returns the prepared list and takes the day's snapshot. If one raises, only the chapters before it are written, and the editing passes, to-dos and snapshot directory are untouched. Document ids stay positive. |
| `Store.Store.Load` | main.py:241-269 | Loading lists each table in ascending id order and fills in each chapter's defaults. Each chapter has no change marker and carries the date its deadline parses to. It falls back to the default metadata when none is stored. |

## Left out

- The user interface is left out: page layout, widgets, toasts, balloons, CSS and the dark-mode switch (main.py:43-58, main.py:350-764). Only the comparison logic of the chapter table and its row construction are modelled. The celebration is a returned flag.
- File and store I/O is left out: the JSON file, `shutil.copyfile`, directory globbing and unlinking. Tables are maps and the snapshot directory is a map from name to time. A copy failure is a parameter. Every file in the snapshot directory is taken to be a snapshot.
- Creating the store from the bundled demo data (main.py:219-239) is left out. It reads a file and inserts records.
- The clock and time zones (main.py:61-71) are parameters. `format_datetime` (main.py:73-83) is left out.
- The importers (main.py:281-345) are left out; they are stubs that return nothing. So is the commented-out autosave check (main.py:766-774).
- Countdown.CountdownLabel: yields a label value, not the display string with its emoji. Dates are day numbers, and `Iso` stands for the zero-padded text the date cell writes. Text that `strptime` would accept in another spelling (such as `2025-6-1`) is not distinguished.
- Tables.WriteThroughIsAuthoritative: stated weaker than "stored ids equal submitted ids", because the code does not promise that. The store's `insert` ignores the submitted `id` and files the document under the next id, so an unstored id other than the next one is inserted elsewhere and then removed. The lemma holds when every submitted id is stored or is the next id at its turn. `Tables.InsertIgnoresSubmittedId` shows the other case.
- Tables.Slot: the store's `update` merges fields into the stored document; the model replaces the document. The documents written here carry every field of the stored one, so the two agree, except for extra keys the model does not carry.
- ChapterSave.Prepared: an absent field and a JSON `null` are both `None`. `setdefault` and `.get(key, default)` treat them differently. A word count that is NaN in the table is modelled as missing.
- ChapterSave.Prepared: a `_changed` marker that is false stays in the dictionary and is written with the chapter. The model drops it, since a false marker and no marker read alike.
- ChapterSave.Prepared: converting a deadline held as a date object back to text (main.py:141-142) is not modelled, because deadlines are always text here.
- Records.ParseDeadline: the store raises when it encodes a date. The model states only that a chapter carrying one cannot be written. The error type and its message are left out, and so is the error display, which ends the run before the rerun.
- ChapterSave.SaveChapters: a `deadline_obj` that is null is written into the stored document. The model leaves it out, because the load recomputes it and nothing reads it back.
- Store.Store.Save: the failure of a chapter upsert is returned as the index of the row that raised. TinyDB's cached next id, which a failed insert would already have advanced, is left out, because the raise ends the run.
- Reconcile.Reconcile: the table widget's column types are not modelled. Ids are integers and a new row's hidden id is `None`; pandas may present ids as floats or NaN.
- Reconcile.Differs: the field loop with its early `break` is the disjunction of the five comparisons. The only effect of the `break` is on when the celebration fires, which `Reconcile.Celebrates` states.
- Store.Store.Save: the metadata document is written as a whole; the code merges it into document 1.
- Store.Store.Load: tables are listed in ascending id order. That is the store's insertion order when documents are only ever appended under the next id.

## Findings

| source | as written | input that shows it | evidently intended | confidence | as-written member | corrected member |
|---|---|---|---|---|---|---|
| main.py:252, main.py:612, main.py:161-164 | The load attaches a date object as `deadline_obj` to each chapter whose deadline parses. The merge keeps it, and `save_data` hands the whole dictionary to the store, whose JSON encoder cannot write a date. | One stored chapter with deadline 2025-06-01, loaded and saved unchanged (the sidebar save) or after any table edit: the upsert raises at that chapter. Nothing is removed, the editing passes and to-dos are not written, and no snapshot is taken. | `deadline_obj` dropped before the upsert, so the save completes as the write-through. | high, not executed | `Store.LoadedDatesBlockSave` | `ChapterSave.SaveWithoutDates` |
| main.py:509, main.py:612-619 | The date cell shows `deadline_obj`, which only the load sets. A matched row keeps the old one and a new row has none. | A chapter loaded without a deadline whose date is set to D in the table. After the save the date cell is empty, so a read-back of that row marks it changed and clears D. | The date cell parsed from the current deadline text, so an unedited read-back is clean. | medium, not executed (whether the table widget hands back its earlier edit on the next pass is not modelled) | `Reconcile.DeadlineEditReverted` | `Reconcile.FixedTableIsClean` |
| main.py:614-620 | Every new row gets `get_next_id(chapters_table)`, computed from the stored table, which the reconciliation loop does not change. | Two rows added in one pass to an empty project: both get id 1, and the save keeps only the second. | New rows numbered consecutively from the next id, so every added chapter is saved. | high, not executed | `NewChapterIds.NewRowsCollide` | `NewChapterIds.FixedRowsAllSaved` |
