# Homework manager: the in-memory store and its monthly statistics

The homework manager keeps classes, the students of each class, and one homework record per student per
day. Each record has a status: done, partial, not done or absent. From these records the manager derives
monthly statistics per class and per student. This project models three parts of it and proves what they
promise.

- **The in-memory storage backend** (`MemoryStorageService`), as a Dafny class with the same state:
  - three maps keyed by id: classes, students and homework records;
  - three id counters.

  Its methods change that state as the backend's methods do:
  - create hands out `next*Id++`;
  - update fails with the backend's own message when the id is unknown;
  - delete cascades, from a class to its students and from a student to their records;
  - the save of a homework record is an upsert on (student, date).

  The queries are functions of the state: the per-student range query, the lookup of one day's record and
  the per-class day query. The two statistics queries are methods whose loops tally records in a map, as
  the backend's `forEach` loops do. Each is proved equal to a reference definition in the `Aggregation`
  module, and the properties are proved about that definition.
- **The record model**: the class, student and record types, the closed set of four statuses and the
  status table.
- **The statistics page's helpers**:
  - the class selection applied to the per-class and per-student rows;
  - the done-only completion rate;
  - the grand total of the per-class rows.

Modules:

| module | file | contents |
|---|---|---|
| `Optional` | optional.dfy | `Option`, for optional fields and lookups that may miss |
| `Records` | records.dfy | the record types, statuses, status table |
| `Text` | text.dfy | JavaScript string order on dates, the month bounds `YYYY-MM-01`..`YYYY-MM-31` |
| `Seqs` | seqs.dfy | `filter` and `find` |
| `Sorting` | sorting.dfy | the stable sort the backend's `sort` calls use |
| `OrderedMaps` | ordered_maps.dfy | the order in which a `Map`'s values are listed |
| `StoreState` | store_state.dfy | the store's state as a value, its invariant, the saved snapshot |
| `Aggregation` | aggregation.dfy | reference definitions of the monthly statistics |
| `MemoryStorage` | memory_storage.dfy | the store class and the lemmas its loops use |
| `Statistics` | statistics.dfy | the statistics page's helpers |

The store's invariant `StoreState.WellFormed` holds the following:
- every entry is stored under its own id;
- every id is positive and below the counter that hands out the next one;
- there is at most one record per (student, date).

Every mutating method keeps it. A second invariant, `StoreState.Linked`, says that every student's class
and every record's student exist. The cascading deletes keep it. Create and update keep it when the class
or student they reference exists. The store does not check this itself.

Where the code departs from the written description of the system, the model follows the code:
- `getClasses` and `getStudentsByClass` return entries in map order (ascending id), not sorted by name.
- Creating or updating a student, or saving a record, does not check that the referenced class or student
  exists.

## Model

| member | source | states |
|---|---|---|
| Records.ParseStatus | src/types/database.ts:31 | a stored string reads back as a status only if it is one of the four status strings, and as nothing exactly when no status has that string |
| Records.StatusRoundTrip | src/types/database.ts:31 | writing a status and reading it back gives the same status |
| Records.StatusIndex | src/types/database.ts:40-65 | every status has a row in the status table, and only one |
| Text.LexLe | src/services/memoryStorage.ts:199-206 | JavaScript string order: a string comes no later than any string it is a prefix of, and a proper extension of a string comes after it |
| Text.LexLeTotal | src/services/memoryStorage.ts:199-206 | any two date strings compare one way or the other |
| Text.LexLeTransitive | src/services/memoryStorage.ts:199-206 | the string order used for the date bounds and the date sort chains |
| Text.LexLeAntisymmetric | src/services/memoryStorage.ts:199-206 | two strings that are each at most the other are equal |
| Text.LexLeReflexive | src/services/memoryStorage.ts:199-206 | a date lies within a range whose bound is that same date (bounds are inclusive) |
| Text.PadStart2Pads | src/services/memoryStorage.ts:259 | padding leaves text of two or more characters alone and left-fills shorter text with zeros to two characters |
| Text.MonthPrefixShape | src/services/memoryStorage.ts:259-261 | for a four-digit year and a month 1..12, both bounds start with the same eight characters `YYYY-MM-`: four digits, a dash, two digits, a dash |
| Text.MonthStart | src/services/memoryStorage.ts:259-260 | for a four-digit year and a month 1..12, the lower bound is a `YYYY-MM-DD` string whose day is `01` |
| Text.MonthEnd | src/services/memoryStorage.ts:259-261 | for a four-digit year and a month 1..12, the upper bound is a `YYYY-MM-DD` string whose day is `31`, whatever the month's length |
| Text.MonthRangeSelectsMonth | src/services/memoryStorage.ts:258-265 | a date is within the month's bounds exactly when it starts with the month's `YYYY-MM-` and its day text lies between `01` and `31` |
| Seqs.Filter | src/services/memoryStorage.ts:154 | the result keeps only elements that pass, and is no longer than the input |
| Seqs.FilterMembers | src/services/memoryStorage.ts:154 | an element is in the filtered list exactly when it is in the list and passes |
| Seqs.FilterMultiplicity | src/pages/Statistics.tsx:86-88 | filtering keeps every occurrence of a passing element and none of the others |
| Seqs.FilterSubsequence | src/pages/Statistics.tsx:86-88 | what filtering keeps appears in the same relative order as in the input |
| Seqs.Find | src/services/memoryStorage.ts:212-214 | the result is nothing exactly when no element passes, and otherwise the first element that passes |
| Sorting.SortBy | src/services/memoryStorage.ts:206 | the sorted list is a permutation of the input |
| Sorting.SortBySorted | src/services/memoryStorage.ts:206 | for a total preorder the sorted list is ordered by it |
| Sorting.SortByStable | src/services/memoryStorage.ts:380 | elements that compare equal keep their relative order (the sort is stable) |
| Sorting.SortByMembers | src/services/memoryStorage.ts:388 | sorting neither adds nor drops an element |
| OrderedMaps.SortedKeys | src/services/memoryStorage.ts:108 | the map's keys, each once, in ascending order |
| OrderedMaps.Values | src/services/memoryStorage.ts:108 | the values listed in key order, one per key |
| OrderedMaps.ValuesListsMap | src/services/memoryStorage.ts:108 | a value is listed exactly when some key maps to it |
| StoreState.Index | src/services/memoryStorage.ts:50-52 | `new Map(items.map(x => [x.id, x]))`: every listed entry's id is a key, and every key holds a listed entry whose id is that key |
| StoreState.IndexLastWins | src/services/memoryStorage.ts:50-52 | of several listed entries with the same id, the map keeps the last one |
| StoreState.Save | src/services/memoryStorage.ts:20-34 | the snapshot lists every entry of each map once and nothing else, and writes the three counters as they are |
| StoreState.Load | src/services/memoryStorage.ts:37-61 | every listed entry's id is restored as a key holding a listed entry with that id; a counter of 0 becomes 1 and any other counter is kept |
| StoreState.IndexValues | src/services/memoryStorage.ts:50-52 | indexing the listed values of a map whose entries sit under their own ids rebuilds that map |
| StoreState.LoadSave | src/services/memoryStorage.ts:20-61 | restoring the snapshot that a well-formed store saved gives back the same maps and counters |
| StoreState.WithoutWellFormed | src/services/memoryStorage.ts:137-150 | removing classes, students and records keeps the invariant |
| StoreState.DeleteClassLinked | src/services/memoryStorage.ts:137-150 | deleting a class together with its students and their records leaves no student or record dangling |
| StoreState.DeleteStudentLinked | src/services/memoryStorage.ts:186-193 | deleting a student together with their records leaves no record dangling |
| StoreState.OverwrittenWellFormed | src/services/memoryStorage.ts:216-223 | overwriting a record's status and note keeps the invariant and the links |
| StoreState.AppendedWellFormed | src/services/memoryStorage.ts:224-237 | adding a record for a (student, date) that has none keeps one record per day; adding it for an existing student keeps the links |
| Aggregation.Tick | src/services/memoryStorage.ts:287-303 | one record adds one to the total and one to the counter of its status, and to nothing else |
| Aggregation.GroupOrder | src/services/memoryStorage.ts:267-286 | the group keys are distinct and each names an existing class, or a student whose class exists |
| Aggregation.GroupOrderMembers | src/services/memoryStorage.ts:269-285 | a class or student has a group exactly when some counted record falls in it |
| Aggregation.GroupCountsConsistent | src/services/memoryStorage.ts:287-303 | every group's total is done + partial + notDone + absent |
| Aggregation.GroupTotalCounts | src/services/memoryStorage.ts:269-288 | a group's total is the number of counted records in it |
| Aggregation.GroupStatusCounts | src/services/memoryStorage.ts:290-303 | a group's counter for a status is the number of its records with that status |
| Aggregation.GroupCountsAbsent | src/services/memoryStorage.ts:275-285 | a key without a group has all counters at zero |
| Aggregation.GroupCountsPositive | src/services/memoryStorage.ts:275-288 | every group has at least one record |
| Aggregation.DropUncountedOrder | src/services/memoryStorage.ts:263-265 | dropping records outside the date range first changes no group |
| Aggregation.DropUncountedCounts | src/services/memoryStorage.ts:263-265 | dropping records outside the date range first changes no counter |
| Aggregation.RoundHalfUpNearest | src/services/memoryStorage.ts:377 | the rounded percentage is the integer nearest the exact one, with halves rounded up |
| Aggregation.RoundedPercentAtMost100 | src/services/memoryStorage.ts:377 | a share of at most the whole rounds to at most 100 |
| Aggregation.StudentRate | src/services/memoryStorage.ts:376-377 | the rate is never negative, is 0 for a student without records, and is at most 100 for consistent counters |
| Aggregation.StudentRateRounds | src/services/memoryStorage.ts:375-377 | with records, the rate is `(done + partial / 2) / total` as a percentage rounded to the nearest integer, halves rounded up |
| Aggregation.MonthlyStats | src/services/memoryStorage.ts:266-309 | the per-class statistics: each row names an existing class, and no class has two rows |
| Aggregation.MonthlyStatsRows | src/services/memoryStorage.ts:258-309 | every per-class row names an existing class, carries its name, and has consistent, non-zero counters; a class has a row exactly when it has a counted record |
| Aggregation.MonthlyStatsCountEveryRecord | src/services/memoryStorage.ts:263-306 | the per-class totals add up to the number of counted records: each one counted once |
| Aggregation.StudentStats | src/services/memoryStorage.ts:334-380 | the per-student statistics ascend by completion rate, with one row per student that has counted records |
| Aggregation.StudentStatsRowOf | src/services/memoryStorage.ts:321-380 | every output row is the row of some grouped student |
| Aggregation.StudentStatsRows | src/services/memoryStorage.ts:312-380 | every per-student row names an existing student of an existing class, carries both names, consistent non-zero counters and the rounded rate of its counters |
| Aggregation.StudentStatsStudents | src/services/memoryStorage.ts:333-372 | a student has a row exactly when the student has a counted record |
| Aggregation.StudentStatsOrder | src/services/memoryStorage.ts:380 | rows with equal rates keep the order in which their students first appeared |
| Aggregation.RateLe | src/services/memoryStorage.ts:380 | the comparator `a.completionRate - b.completionRate` as an order: a row comes no later than a row with an equal or higher rate; Aggregation.StudentStats proves the rows sorted by it |
| MemoryStorage.DateDesc | src/services/memoryStorage.ts:206 | the comparator `b.date.localeCompare(a.date)` as an order: later dates first; MemoryStorage.DateDescOrder proves it a total preorder |
| MemoryStorage.DateDescOrder | src/services/memoryStorage.ts:206 | latest-date-first is a total preorder |
| MemoryStorage.StudentIdLe | src/services/memoryStorage.ts:388 | the comparator `a.studentId - b.studentId` as an order: lower student ids first; MemoryStorage.StudentIdOrder proves it a total preorder |
| MemoryStorage.StudentIdOrder | src/services/memoryStorage.ts:388 | ascending student id is a total preorder |
| MemoryStorage.BoundedRecords | src/services/memoryStorage.ts:197-204 | exactly the student's records within the optional inclusive bounds, where a missing or empty bound is no bound; no record twice in a keyed store |
| MemoryStorage.ClassMemberIds | src/services/memoryStorage.ts:385 | the collected ids are exactly those of the class's students |
| MemoryStorage.RecordsOnDateFor | src/services/memoryStorage.ts:386-387 | exactly the records on the date whose student is listed; no record twice in a keyed store |
| MemoryStorage.FindInValues | src/services/memoryStorage.ts:246-248 | a search of the map's values finds a stored entry that matches, and finds nothing exactly when no stored entry matches |
| MemoryStorage.FilteredIds | src/services/memoryStorage.ts:139-146 | the ids of the filtered values are exactly the keys whose entries pass the filter |
| MemoryStorage.ClassTallyRows | src/services/memoryStorage.ts:267-308 | the map built by the per-class loop, listed in insertion order, is the per-class statistics of the month |
| MemoryStorage.StudentTallyRated | src/services/memoryStorage.ts:374-378 | once every rate is computed, each row is the student's row of the reference statistics |
| MemoryStorage.StudentTallyRows | src/services/memoryStorage.ts:321-378 | the rated map listed in insertion order is the unsorted per-student statistics of the month |
| MemoryStorage.SavedIsFound | src/services/memoryStorage.ts:244-250 | with one record per day, looking up a record's student and date finds that record |
| MemoryStorage.MemoryStorageService.constructor | src/services/memoryStorage.ts:4-9 | a store that has loaded nothing starts empty with every counter at 1, and is valid and linked |
| MemoryStorage.MemoryStorageService.Restore | src/services/memoryStorage.ts:37-61 | the store restored from a snapshot holds exactly what the snapshot decodes to, with falsy counters replaced by 1 |
| MemoryStorage.MemoryStorageService.GetClasses | src/services/memoryStorage.ts:107-109 | one entry per class, listing exactly the stored classes |
| MemoryStorage.MemoryStorageService.CreateClass | src/services/memoryStorage.ts:111-123 | returns the old class counter and adds one; adds exactly one class under that fresh id, with a missing description stored as `''`; nothing else changes; the invariants hold |
| MemoryStorage.MemoryStorageService.UpdateClass | src/services/memoryStorage.ts:125-135 | fails with the class message and changes nothing exactly when the id is unknown; otherwise it sets that class's name, description (`''` when missing) and update time only |
| MemoryStorage.MemoryStorageService.DeleteClass | src/services/memoryStorage.ts:137-150 | removes the class, exactly the students of that class and exactly their records; an unknown id is no error; nothing else changes |
| MemoryStorage.MemoryStorageService.RemoveMembers | src/services/memoryStorage.ts:139-140 | removes exactly the students whose class is the given one and returns their ids |
| MemoryStorage.MemoryStorageService.RemoveRecordsOf | src/services/memoryStorage.ts:143-146 | removes exactly the records of the given students |
| MemoryStorage.MemoryStorageService.RemoveStudents | src/services/memoryStorage.ts:140 | the delete loop removes exactly the listed students' ids |
| MemoryStorage.MemoryStorageService.RemoveRecords | src/services/memoryStorage.ts:146 | the delete loop removes exactly the listed records' ids |
| MemoryStorage.MemoryStorageService.RemoveRecordsOfStudent | src/services/memoryStorage.ts:188-189 | removes exactly the records of the student |
| MemoryStorage.MemoryStorageService.GetStudentsByClass | src/services/memoryStorage.ts:153-155 | exactly the stored students of the class, and in a valid store none of them twice |
| MemoryStorage.MemoryStorageService.CreateStudent | src/services/memoryStorage.ts:157-168 | returns the old student counter and adds one; adds exactly one student under that fresh id with the given fields; nothing else changes; the links hold if the class exists |
| MemoryStorage.MemoryStorageService.UpdateStudent | src/services/memoryStorage.ts:170-184 | fails with the student message and changes nothing exactly when the id is unknown; otherwise it sets that student's class, name, grade, phones, note and update time only |
| MemoryStorage.MemoryStorageService.DeleteStudent | src/services/memoryStorage.ts:186-193 | removes the student and exactly that student's records; nothing else changes; the invariants hold |
| MemoryStorage.MemoryStorageService.GetHomeworkRecords | src/services/memoryStorage.ts:196-207 | exactly the student's records within the optional inclusive bounds, latest date first, each once in a valid store |
| MemoryStorage.MemoryStorageService.SaveHomeworkRecord | src/services/memoryStorage.ts:209-242 | with a record for the (student, date): overwrites its status, note and update time, returns its id, and keeps the counter; without one: adds a record under the old record counter and adds one to the counter; one record per day is kept; afterwards the lookup of that student and date returns the saved record |
| MemoryStorage.MemoryStorageService.Overwrite | src/services/memoryStorage.ts:216-223 | only the found record's status, note and update time change; the invariant holds and the lookup finds the record |
| MemoryStorage.MemoryStorageService.Append | src/services/memoryStorage.ts:224-237 | the new record goes under the old counter, which goes up by one; the invariant holds and the lookup finds the record |
| MemoryStorage.MemoryStorageService.GetHomeworkRecord | src/services/memoryStorage.ts:244-255 | nothing exactly when the student has no record on the date; otherwise a stored record of that student and date |
| MemoryStorage.MemoryStorageService.GetHomeworkRecordsByClassAndDate | src/services/memoryStorage.ts:384-389 | exactly the records on the date whose student belongs to the class, by ascending student id, each once in a valid store |
| MemoryStorage.MemoryStorageService.MonthScope | src/services/memoryStorage.ts:258-265 | the statistics look at the store's own students and classes, and for a four-digit year and a month 1..12 a date is in the month's range exactly when it starts with `YYYY-MM-` and its day text lies between `01` and `31` |
| MemoryStorage.MemoryStorageService.GetMonthlyStats | src/services/memoryStorage.ts:258-309 | the result is the reference per-class statistics of the month's records |
| MemoryStorage.MemoryStorageService.TallyByClass | src/services/memoryStorage.ts:267-306 | the loop's map holds each class's reference counters, and its keys in first-appearance order |
| MemoryStorage.MemoryStorageService.GetStudentStats | src/services/memoryStorage.ts:312-381 | the result is the reference per-student statistics of the month's records |
| MemoryStorage.MemoryStorageService.TallyByStudent | src/services/memoryStorage.ts:321-372 | the loop's map holds each student's reference counters with both names, and its keys in first-appearance order |
| MemoryStorage.StudentTallyKeys | src/services/memoryStorage.ts:321-372 | every key the loop recorded is in the map, and no key is recorded twice |
| MemoryStorage.MemoryStorageService.RateStudents | src/services/memoryStorage.ts:374-378 | every tallied row gets the rounded rate of its own counters, and nothing else in it changes |
| Statistics.VisibleClassStats | src/pages/Statistics.tsx:73-88 | no rows before a class is chosen; all rows unchanged for `'all'`; for one class, exactly the rows with that class id, in their original order |
| Statistics.OneClassOfMonth | src/pages/Statistics.tsx:84-88 | with one class chosen, the page shows that class's row of the month if the class has a counted record, and nothing otherwise |
| Statistics.VisibleStudentStats | src/pages/Statistics.tsx:109-129 | no rows before a class is chosen; all rows unchanged for `'all'`; for one class, exactly the rows whose first loaded student with that id is in the class, in their original order |
| Statistics.ShownInClassMeans | src/pages/Statistics.tsx:125-128 | a shown row's student is loaded and in the class; a row whose student is not loaded is dropped; with distinct loaded ids, a row is shown exactly when its student is in the class |
| Statistics.CompletionRate | src/pages/Statistics.tsx:155-158 | the rate is never negative, is 0 for missing stats or a zero total, and is at most 100 when done is at most the total |
| Statistics.CompletionRateRounds | src/pages/Statistics.tsx:157 | with counters that count something, the rate is `done / total` as a percentage rounded to the nearest integer, halves rounded up |
| Statistics.RoundHalfUpMonotone | src/pages/Statistics.tsx:157 | the rounded percentage never decreases as the share grows |
| Statistics.CompletionRateNoPartialCredit | src/pages/Statistics.tsx:157 | the page's done-only rate never exceeds the per-student rate of the same counters, and equals it without partial records |
| Statistics.TotalStats | src/pages/Statistics.tsx:161-177 | there is no grand total exactly when there are no rows |
| Statistics.SumCounts | src/pages/Statistics.tsx:164-176 | the `reduce` sum: its total is the sum of the rows' totals, and rows with consistent counters sum to consistent counters |
| Statistics.SumCountsAppend | src/pages/Statistics.tsx:164-176 | summing two runs of rows one after the other adds their sums, field by field |
| Statistics.TotalStatsPresent | src/pages/Statistics.tsx:162-176 | for rows that each count something, there is a grand total exactly when they count anything |
| Statistics.TotalStatsSums | src/pages/Statistics.tsx:164-176 | the grand total's total is the sum of the rows' totals, and it is consistent when the rows are |
| Statistics.TotalOfMonth | src/pages/Statistics.tsx:161-177 | over a month's per-class rows, there is no grand total exactly when no record counts; otherwise its total is the number of counted records and its counters are consistent |

## Left out

- `insertSampleData` is left out because it draws statuses with `Math.random` and dates from the clock. The no-argument constructor models a store whose load found nothing, before any sample data is added.
- `saveToStorage` and `loadFromStorage` are browser I/O. They are modelled only as `StoreState.Save` and `StoreState.Load` over a `Snapshot`, and a `Restore` constructor. The following are not modelled:
  - JSON text;
  - the availability of `localStorage`;
  - the caught exceptions;
  - the write after every mutation.
- MemoryStorage.MemoryStorageService.Restore: the source replaces a counter by 1 when it is falsy. After `JSON.parse` that is a missing counter (`undefined`), `null`, `0`, `""` or `false`; JSON cannot carry `NaN`. A non-empty string, `true` or an object is truthy and is kept as it is. The model's counters are integers, so only 0 is replaced.
- Ids, counters and counts are JavaScript doubles in the source and unbounded integers in the model. From 2^53 on, `next*Id++` no longer yields a new value, so ids stop being fresh. This affects the counters `nextClassId`, `nextStudentId` and `nextRecordId`, as used by MemoryStorage.MemoryStorageService.CreateClass, MemoryStorage.MemoryStorageService.CreateStudent and MemoryStorage.MemoryStorageService.Append, and the statistics counts of MemoryStorage.MemoryStorageService.TallyByClass and MemoryStorage.MemoryStorageService.TallyByStudent. The model does not bound them.
- OrderedMaps.Values lists a map's values by ascending key. A JavaScript `Map` lists them in insertion order. The two agree for every map the store builds, because the ids come from increasing counters. A restored snapshot that lists entries out of id order would be listed differently by the source.
- Timestamps (`new Date().toISOString()`) are the `now` parameter. `console` output, `close()` and `async` are left out; the methods are sequential.
- In-place mutation and aliasing are not modelled. `updateClass`, `updateStudent` and `saveHomeworkRecord` change the stored object, so a caller that still holds an object returned by a query sees the change. The model's records are values.
- Aggregation.StudentRate and Statistics.CompletionRate compute `Math.round` of a floating-point percentage exactly, in integers. A percentage that is exactly a half in real arithmetic can fall just below the half in doubles and round down in the source. For example, 29 done out of 200 gives `0.145 * 100`.
- Text.LexLe is string order by character code, which is what `<`, `>=` and `localeCompare` give on `YYYY-MM-DD` dates. Locale-specific collation of other text is not modelled.
- MemoryStorage.MemoryStorageService.GetStudentStats requires every student to be stored under its own id, because the source groups by `student.id` while looking students up by the record's `studentId`. Every store built by the constructor, by `Restore` or by the methods meets this.
- MemoryStorage.MemoryStorageService.GetHomeworkRecords and MemoryStorage.MemoryStorageService.GetHomeworkRecordsByClassAndDate promise that no record appears twice only in a valid store.
- The statistics page's React state, effects, rendering, fallback-on-error path and `getClassStudentCount` are left out.
- Parsing the selected month with `split('-').map(Number)` is left out: year and month are integers.
- The page's loading of students is left out: the loaded students are the `students` parameter of Statistics.VisibleStudentStats.
- The relational backend (`src/services/database.ts`) is not part of this model. Its cascade and uniqueness rules live in the SQL engine.
