# Tournament history, modelled in Dafny

This project models the core of a small Flask application that keeps a
history of tournaments. Each record has a name, a date, an organizer, the
top three places, a description and an optional bracket image. The
records live in a single JSON data file. Image uploads live in an upload
directory. The request handlers are modelled as methods of one
`TournamentStore` object. They are the main listing, the detail view, add,
edit and delete. The object holds the records (the content of the data
file) and, as a ghost set of names, the files in the upload directory.

Modules, in dependency order:

- `Wrappers`: the `Option` type; JSON `null` and "not found" are `None`.
- `Text`: Python's `str.strip()` (with the `str.isspace()` character set),
  ASCII `lower()`, the position of the last `'.'` (where `rsplit('.', 1)`
  splits) and the `[:n]` slice.
- `Uploads`: `allowed_file` with its allow-list, the submitted file part,
  the acceptance test, the stored image name `<uuid[:8]>_<sanitized name>`,
  and the condition under which extracting the extension raises.
- `Records`: the `Tournament` record and the submitted `Form`.
  - Stripping and the required-field check.
  - The record built by add and the record after edit.
  - First-match lookup by id, and the list comprehension that removes an id.
  - The consistency of records and upload directory that each handler
    keeps: unique ids, every named image stored, no image shared.
- `Ordering`: Python's string `<` and the stable newest-first sort of the
  listing. It is specified as an insertion of each record into the sorted
  prefix. It is proved sorted, a permutation, and stable per date.
- `Store`: the handlers.
  - The listing sorts an array copy in place by insertion. That method is
    proved equal to the specification sort.
- `Scenarios`: client walk-throughs that start from an empty store and an
  empty upload directory: create then list, a blank required field, two
  records listed newest first, an edit of one field, an executable upload
  being skipped, and delete then view; the two sample forms are passed
  through the first walk-throughs.

The file-name sanitizer (`secure_filename`), the UUID strings and the
current time are parameters of the handlers.

When a handler raises, Flask returns a 500. This is `ServerError`. The
only way the modelled code can raise is `rsplit('.', 1)[1]` on a
sanitized name that has no dot left. In add this happens before anything
is written. In edit it happens after the old image file was removed and
before the records are saved. The record then still names a file that is
gone. The model keeps this behaviour: `Store.TournamentStore.Edit` states
that after such a failure the invariant "every named image is stored" no
longer holds when the record had an image (through
`Records.RemovedImageDangles`).

## Model

| member | source | states |
|---|---|---|
| Text.IsSpace | app.py:77-83 | definition: the characters of Python's `str.isspace()`, the set `strip()` removes; used by `StripShape` and `StripEmptyIff` |
| Text.StripLeft | app.py:77-83 | definition of `lstrip()`; its properties are proved in `StripLeftShape` |
| Text.StripRight | app.py:77-83 | definition of `rstrip()`; its properties are proved in `StripRightShape` |
| Text.Strip | app.py:77-83 | definition of `strip()`; its properties are proved in `StripShape`, `StripEmptyIff` and `StripIdempotent` |
| Text.StripShape | app.py:77-83 | `strip()` yields the contiguous middle of the input: the prefix and suffix it drops are all white space, and a non-empty result neither starts nor ends with white space |
| Text.StripEmptyIff | app.py:77-87 | a value strips to "" exactly when it is made only of white space (both directions) |
| Text.StripIdempotent | app.py:147-153 | stripping an already stripped value changes nothing |
| Text.StripLeftShape | app.py:77-83 | `lstrip()` keeps a suffix that does not start with white space and drops only white space |
| Text.StripRightShape | app.py:77-83 | `rstrip()` keeps a prefix that does not end with white space and drops only white space |
| Text.Lower | app.py:28 | `lower()` keeps the length and maps each character on its own (ASCII case folding) |
| Text.LowerChar | app.py:28 | an upper-case ASCII letter becomes its own lower-case letter (same offset from `a` as from `A`); every other character is kept |
| Text.LowerIdempotent | app.py:28 | lower-casing twice is lower-casing once |
| Text.LowerSuffix | app.py:28 | lower-casing commutes with taking the suffix after a position |
| Text.LowerKeepsDots | app.py:28 | lower-casing turns no character into `'.'` and keeps every `'.'` in place |
| Text.LastIndexOf | app.py:27-28 | the position where `rsplit('.', 1)` splits is an occurrence with none after it; there is none exactly when the character does not occur |
| Text.Take | app.py:96 | the `[:8]` slice is the prefix of length 8, or the whole string when it is shorter |
| Uploads.AllowedFile | app.py:18-28 | a name without `'.'` is refused; otherwise the verdict is whether the text after the last `'.'`, lower-cased, is one of png, jpg, jpeg, gif, webp |
| Uploads.AllowedFileCaseInsensitive | app.py:25-28 | for every name, the verdict on the name and on its lower-cased form agree |
| Uploads.LastDotCaseInsensitive | app.py:25-28 | for a name whose last `'.'` is at a given position, the verdict on the name and on its lower-cased form agree |
| Uploads.AllowedFileAccepts | app.py:18-28 | `bracket.png` and `Final.JPEG` are accepted (case-insensitive extension) |
| Uploads.AllowedFileRejectsExtension | app.py:25-28 | `bracket.exe` and `bracket.png.exe` are refused: only the last extension counts |
| Uploads.AllowedFileRejectsBare | app.py:27 | `bracket` and the empty name are refused |
| Uploads.StoredName | app.py:96-98 | for a UUID string, the stored name is its first 8 characters, `_`, then the sanitized name |
| Uploads.StoredNameInjective | app.py:96-98 | two stored names agree exactly when the UUID prefixes and the sanitized names agree (both directions) |
| Uploads.Accepted | app.py:91-93 | definition of the upload test of add and edit (field present, non-empty file name, `allowed_file`); used in `ImageName`, `Create` and `Edit` |
| Uploads.SanitizeFails | app.py:94-97 | definition: an accepted upload whose sanitized name has no `'.'`, so `rsplit('.', 1)[1]` raises; `Create` and `Edit` answer 500 exactly then |
| Uploads.Present | app.py:160 | definition of Python's truth test on a stored `bracket_image` (present and not ""); used by `ImageFiles` |
| Uploads.ImageFiles | app.py:199-202 | the file a handler removes for a record's image: that name when the image is present, nothing otherwise |
| Uploads.ImageName | app.py:90-101 | a stored image name is produced exactly for an accepted upload (field present, non-empty file name, allowed extension) |
| Records.Stripped | app.py:77-83 | definition: every form field with `strip()` applied; its properties are proved in `StrippedTrimmed` and `StrippedIdempotent` |
| Records.HasRequired | app.py:86 | definition of the `all([...])` test on the four required fields; its properties are proved in `RejectedIffBlank` |
| Records.StrippedIdempotent | app.py:147-153 | stripping a form twice is stripping it once |
| Records.ResubmitKeepsRecord | app.py:147-174 | editing a record made by add with its own values resubmitted and no new image changes nothing but `updated_at` |
| Records.RejectedIffBlank | app.py:77-87 | the add handler refuses a submission exactly when one of the four required fields is empty or only white space (both directions) |
| Records.StrippedTrimmed | app.py:77-83 | a form whose values have no surrounding white space is stored as submitted |
| Records.NewRecord | app.py:104-115 | the new record carries the stripped fields, the given id, the image name or null, the creation time and no `updated_at` |
| Records.Edited | app.py:147-174 | the edited record carries the new text fields, the resulting image and the new `updated_at`; its id and `created_at` are unchanged |
| Records.Find | app.py:60 | the lookup yields the first record with the id, or None exactly when no record has it |
| Records.Remove | app.py:205 | definition of the list comprehension; its properties are proved in `RemoveMembers`, `RemoveConcat`, `RemoveAbsent`, `RemoveUnique` and `FindAfterRemove` |
| Records.RemoveMembers | app.py:205 | the list comprehension keeps exactly the records with another id and never grows the list |
| Records.RemoveConcat | app.py:205 | removal distributes over concatenation, so the kept records stay in their relative order |
| Records.RemoveAbsent | app.py:205 | removing an id no record carries leaves the list unchanged |
| Records.FindAfterRemove | app.py:192-208 | after delete the id is not found any more |
| Records.RemoveUnique | app.py:205 | when ids are unique, removing the id of record k removes just that record |
| Records.OthersApart | app.py:205 | with unique ids, the records before and after record k carry other ids and with it make up the list |
| Records.RemoveSplit | app.py:205 | removing the id of x from a + [x] + b, where a and b do not carry it, yields a + b |
| Records.AppendConsistent | app.py:96-120 | appending a record with a fresh id and a fresh stored image keeps records and upload directory consistent |
| Records.DropConsistent | app.py:198-205 | dropping one record together with its image file keeps the collection consistent |
| Records.RemoveConsistent | app.py:189-206 | delete (image of the first match removed, every record with the id dropped) keeps the collection consistent |
| Records.UpdateConsistent | app.py:156-177 | replacing one record by one with the same id keeps the collection consistent, both when the image is kept and when it is replaced by a fresh file after the old one is removed |
| Records.RemovedImageDangles | app.py:159-172 | removing the image file of a record that still names it breaks the invariant; `Edit` uses it for its failure outcome |
| Ordering.Less | app.py:52 | definition of Python's `<` on strings (code point by code point, a proper prefix is smaller); its properties are proved in `LessIrreflexive`, `LessTransitive`, `LessTotal`, `LessAsymmetric` and `LessAt` |
| Ordering.Insert | app.py:52 | definition of one stable insertion; its properties are proved in `InsertPermutation`, `InsertSorted`, `InsertWithDate` and `InsertAt` |
| Ordering.SortByDate | app.py:52 | definition of the stable newest-first sort; its properties are proved in `SortPermutation`, `SortSorted`, `SortStable` and `SortTwo` |
| Ordering.LessIrreflexive | app.py:52 | no string is smaller than itself under Python's `<` |
| Ordering.LessTransitive | app.py:52 | Python's `<` on strings is transitive |
| Ordering.LessTotal | app.py:52 | two strings are equal or ordered one way |
| Ordering.LessAsymmetric | app.py:52 | two strings are never smaller than each other |
| Ordering.LessAt | app.py:52 | strings that first differ at position k are ordered by their characters at k |
| Ordering.InsertPermutation | app.py:52 | inserting a record adds exactly that record |
| Ordering.ConsSorted | app.py:52 | a record not older than any record of a sorted list can go in front of it |
| Ordering.PrependSorted | app.py:52 | a record newer than the head of a sorted list can go in front of it |
| Ordering.InsertSorted | app.py:52 | inserting into a newest-first list keeps it newest first |
| Ordering.SortPermutation | app.py:52 | the listing holds exactly the stored records (multiset equality) |
| Ordering.SortSorted | app.py:52 | the listing is non-increasing by raw date string |
| Ordering.SortStable | app.py:52 | for every date, the records with that date keep their stored order (Python's sort is stable, also with `reverse=True`) |
| Ordering.InsertWithDate | app.py:52 | inserting a record appends it to the records of its own date and leaves the other dates alone |
| Ordering.WithDateConcat | app.py:52 | selecting the records of one date distributes over concatenation |
| Ordering.WithDateNone | app.py:52 | a list without the date selects nothing |
| Ordering.SortTwo | app.py:52 | two records swap places exactly when the second has the later date; equal dates keep their order |
| Ordering.InsertAt | app.py:52 | inserting into a sorted list puts the record after every record not older than it and before the strictly older rest |
| Ordering.SortByDatePrefix | app.py:52 | sorting one more record inserts it into the sorted prefix |
| Ordering.InsertShifted | app.py:52 | shifting the older tail of the array one place right and writing the record into the gap is the insertion |
| Store.TournamentStore.constructor | app.py:31-37 | a request starts from the saved records and the files present |
| Store.TournamentStore.View | app.py:56-65 | the detail page shows the first record with the id, or is a 404 exactly when no record has it; nothing changes |
| Store.TournamentStore.Listing | app.py:47-53 | the main page lists a permutation of the records, newest first by raw date string, in the stable sort order |
| Store.TournamentStore.SaveImage | app.py:94-101 | an accepted upload is written under its stored name; when the sanitized name has no `'.'` the handler raises and nothing is written |
| Store.TournamentStore.RemoveImage | app.py:160-163 | a record's image file is removed when it names one; a missing file is not an error |
| Store.TournamentStore.Create | app.py:68-129 | 400 exactly when a required field is blank, 500 exactly when an accepted upload loses its dot; in both cases nothing changes; otherwise exactly one record is appended, the earlier ones are kept, the image is stored only if accepted, and consistency is kept for a fresh id and a fresh name |
| Store.TournamentStore.Edit | app.py:132-186 | 404 and nothing changes for an unknown id; otherwise only the first match changes (fields, `updated_at`, image replaced only by an accepted upload after the old file is removed); a 500 after that removal leaves the records unsaved and, when the record had an image, one that names a missing file |
| Store.TournamentStore.Delete | app.py:189-208 | 404 and nothing changes for an unknown id; otherwise the first match's image file is removed and every record with the id is dropped in order; the id is then not found and consistency is kept |
| Store.InsertLast | app.py:52 | one insertion-sort step on the array: the sorted prefix and the next record become their insertion; the rest is kept |
| Store.InsertionPoint | app.py:52 | the search stops after the last record not older than the one being inserted; all records from there to the end of the prefix are strictly older |
| Store.ShiftRight | app.py:52 | moves a block of the array one place right and keeps the rest |
| Scenarios.SpringOpenComplete | app.py:77-86 | the sample tournament A is complete and stored as submitted |
| Scenarios.SummerCupComplete | app.py:77-86 | the sample tournament B is complete and stored as submitted |
| Scenarios.SampleDates | app.py:52 | A's date `2024-03-01` sorts before B's `2024-06-01` |
| Scenarios.CreateThenList | app.py:47-126 | a complete submission without image on an empty store succeeds and the listing shows exactly the new record |
| Scenarios.BlankOrganizer | app.py:77-87 | a submission with a blank organizer is a 400 and the listing stays empty |
| Scenarios.NewestFirst | app.py:47-126 | creating B and then an earlier A lists B first, then A |
| Scenarios.EditSecondPlace | app.py:132-186 | editing only the runner-up stores the new value and `updated_at`; every other field and `created_at` are as before |
| Scenarios.ExecutableSkipped | app.py:89-126 | an upload named `bracket.exe` is skipped without an error: the record is created with no image and no file is written |
| Scenarios.SampleSubmissions | app.py:47-126 | the sample form A alone is created and listed alone; B then A lists B first |
| Scenarios.DeleteThenView | app.py:56-65 | after deleting a record with an image, its page is a 404 and the image file is gone |

## Left out

- Flask itself is not modelled: routing, the GET pages that render templates, the redirect URLs and the JSON envelopes. `Response` names each outcome instead.
- Reading and writing the JSON data file is not modelled. `records` is the content of the file. A missing file reads as an empty list, which the constructor can be given. A malformed file, or any I/O error, would end in a Flask error or a 500; neither is modelled.
- Writing the image file happens before the data file is read. When that read fails, the image file stays behind with no record; not modelled, as it needs I/O failures.
- The upload directory calls (`os.makedirs`, `os.path.exists`, `os.remove`, `file.save`) are modelled by the ghost set `uploads` and not performed. The contents of the image files are not modelled.
- `secure_filename` is a parameter `sanitize`. Its actual rewriting rules come from a library that is not part of this model.
- `uuid.uuid4()` and `datetime.now().isoformat()` are parameters. Every guarantee that depends on freshness takes it as a premise: a new id not among the ids, a stored name not yet in the directory.
- The 16 MB request cap (`MAX_CONTENT_LENGTH`, answered by a 413) is not modelled. Neither is the `__main__` block nor gunicorn_config.py (server settings).
- Concurrent requests are not modelled. Each handler is one atomic step; the source reads and rewrites the whole file with no locking, so the last writer wins.
- Text.Lower: `str.lower()` is modelled for ASCII letters only. The allow-list holds only the ASCII letters of png, jpg, jpeg, gif and webp, and no non-ASCII character lowers to one of those letters alone, so `allowed_file`'s verdict is the same.
- The record is a typed datatype. Extra keys a hand-edited data file might carry are not modelled. A stored `bracket_image` of "" counts as no image under Python's truth test, as in the source.
- `list.sort` in CPython is Timsort. The model sorts by insertion. Both are stable sorts on the same key, so the result is the same.
- The edit handler does not check required fields. The model keeps that: an edit may blank any field.

