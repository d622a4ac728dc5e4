# Book catalog, grade analyzer and profile generator, modelled in Dafny

This project models the three pieces of logic in the `innowise_laboratory` exercises that have a real contract:

- **The book catalog** (`lecture_5/book_api`). This is a table of books keyed by an integer id. It has five operations: create, list, delete, partial update and filtered search. Each operation is modelled as a pure function. It takes the committed store (a `map<int, Book>` whose keys are the records' ids) and the request's arguments. It returns a result together with the store as committed afterwards. A failed operation returns the store it was given, which is the session's rollback.
- **The student grade analyzer** (`lecture_3/main.py`). It covers name validation, adding a student without case-insensitive duplicates, the 0–100 grade rule, and choosing the top performer. Averages are compared exactly, by cross-multiplication.
- **The user profile generator** (`lecture_2/main.py`). It covers the age-to-life-stage classifier, the age computed from the birth year, and the hobby list read until `stop`.

Modules:

| file | module | models |
|---|---|---|
| `wrappers.dfy` | `Wrappers` | `Option`, `Result` |
| `collections.dfy` | `Collections` | the read-until-sentinel loop; element witnesses for sets and maps |
| `ascii_text.dfy` | `AsciiText` | `str.isdigit`, `lower`, `strip`, `title` on ASCII |
| `book_models.dfy` | `BookModels` | `models.py`: the `Book` record, the NOT NULL columns, the primary key, the 64-bit INTEGER range |
| `book_api.dfy` | `BookApi` | `main.py`: the five endpoints' effect on the table |
| `book_api_properties.dfy` | `BookApiProperties` | properties relating several catalog operations |
| `student_grades.dfy` | `StudentGrades` | `lecture_3/main.py` |
| `user_profile.dfy` | `UserProfile` | `lecture_2/main.py` |

The catalog model follows what the code does in five places where a reader might expect otherwise:

- **Search with no criteria.** A search with no truthy criterion returns every record, not an empty list. The filters are applied only under `if title:`, `if author:` and `if year:`. An empty string and a year of 0 count as missing.
- **Ordering.** Neither the listing nor the search orders its rows. Both results are modelled as sets of records.
- **Field validation.** Nothing checks the length of `title` or `author`, that they are non-empty, or that `year` is non-negative. The model does not add these checks.
- **Explicit nulls in update.** An update that sends `title` or `author` as an explicit `null` writes that null into a NOT NULL column. The commit then fails and is rolled back. The model reports this as `IntegrityError` with the store unchanged. A field left out of the payload is skipped.
- **The 64-bit INTEGER range.** Python integers are unbounded, but the SQLite driver binds a parameter only if it lies in the signed 64-bit range. A year or id outside that range makes the statement fail before it reaches the table. The model reports this as `IntegerOverflow` with the store unchanged. The value is bound before the NOT NULL columns are checked, so an out-of-range year is reported ahead of a null title.

## Model

| member | source | states |
|---|---|---|
| BookModels.Persist | lecture_5/book_api/models.py:17-20 | a row is stored iff its year is null or a 64-bit INTEGER and both NOT NULL columns (`title`, `author`) are non-null; an unbindable year gives `IntegerOverflow`, and otherwise a null title or author gives `IntegrityError`; a stored row is exactly the book it describes |
| BookModels.PersistStoredBook | lecture_5/book_api/models.py:17-20 | a stored book passes the column constraints and the INTEGER range unchanged |
| BookModels.PrimaryKeyUnique | lecture_5/book_api/models.py:17 | two stored records with the same id are the same record |
| BookModels.RecordCount | lecture_5/book_api/models.py:17 | because ids are unique, the table holds exactly one record per id |
| BookApi.FreshId | lecture_5/book_api/main.py:25-27 | the id assigned on insert is not used by any stored record |
| BookApi.CreateBook | lecture_5/book_api/main.py:22-28 | create succeeds iff the year is null or a 64-bit INTEGER, and otherwise reports `IntegerOverflow` with no change; a successful create stores exactly one new record, with the given title, author and year (null when not supplied), under an unused id; every other record is unchanged |
| BookApi.ListBooks | lecture_5/book_api/main.py:31-33 | the listing contains a record iff it is stored under its own id; nothing is filtered; the store is unchanged |
| BookApi.ListBooksCount | lecture_5/book_api/main.py:31-33 | the listing has as many records as the table has ids |
| BookApi.DeleteBook | lecture_5/book_api/main.py:37-46 | an id outside the 64-bit INTEGER range gives `IntegerOverflow` and no change; an absent id gives `NotFound` and no change; a present id removes exactly that record and keeps every other one |
| BookApi.UpdateBook | lecture_5/book_api/main.py:50-64 | id outside the 64-bit INTEGER range: `IntegerOverflow`, no change; absent id: `NotFound`, no change; a year outside the range: `IntegerOverflow`, no change; else an explicit null for title or author: `IntegrityError`, no change; otherwise each field sent with a value overwrites, a null year is written as null, unsent fields and the id are kept, and no other record changes |
| BookApi.SearchBooks | lecture_5/book_api/main.py:68-82 | the search fails with `IntegerOverflow` iff a truthy year is outside the 64-bit INTEGER range; otherwise the result contains a stored record iff it satisfies every truthy criterion (title and author by substring, year by equality, a null year never matching); the store is unchanged |
| BookApiProperties.CreateAll | lecture_5/book_api/main.py:22-28 | over a run of creates, a request succeeds iff its year binds and otherwise reports `IntegerOverflow`; each created record has its request's fields, an id unused before the run, and is in the final store; earlier records are kept |
| BookApiProperties.CreateAllDistinct | lecture_5/book_api/main.py:22-28 | the successful creates of a run give pairwise distinct ids |
| BookApiProperties.CreateAllCount | lecture_5/book_api/main.py:22-28 | a run of creates grows the table by exactly one record per request whose year binds |
| BookApiProperties.CreateThenList | lecture_5/book_api/main.py:22-33 | after a create, the listing is the previous listing plus the created record, or the previous listing when the create failed |
| BookApiProperties.DeleteIsPermanent | lecture_5/book_api/main.py:40-55 | after a successful delete of an id, the listing no longer shows it, and both a second delete and an update of it report `NotFound` |
| BookApiProperties.UpdateNothing | lecture_5/book_api/main.py:53-59 | an update of a stored id that sends no field returns the stored record and changes nothing (an id outside the INTEGER range fails the lookup) |
| BookApiProperties.UpdateIdempotent | lecture_5/book_api/main.py:57-62 | sending a successful update a second time changes nothing more and returns the same record |
| BookApiProperties.SearchIgnoresFalsy | lecture_5/book_api/main.py:74-79 | an empty title, an empty author or year 0 filters exactly as a missing criterion |
| BookApiProperties.SearchWithoutCriteria | lecture_5/book_api/main.py:72-81 | with no truthy criterion, search returns the same as the full listing |
| BookApiProperties.SearchWithinList | lecture_5/book_api/main.py:72-81 | every successful search result is in the full listing |
| BookApiProperties.SearchIsIntersection | lecture_5/book_api/main.py:74-79 | searching with several criteria fails iff the year alone fails, and otherwise gives the intersection of the searches with each criterion alone |
| BookApiProperties.SearchTitleAndYear | lecture_5/book_api/main.py:74-79 | "Dune" (1965) and "Dune Messiah" (1969) both match title "Dune"; adding year 1965 keeps only the first |
| AsciiText.Strip | lecture_3/main.py:27 | the stripped name is a slice of the input; everything cut off at either end is whitespace, and the result neither starts nor ends with whitespace |
| AsciiText.TitleFrom | lecture_3/main.py:27 | title-casing keeps the length and every non-letter, and changes only the case of letters |
| AsciiText.TitleFromLetters | lecture_3/main.py:27 | a letter right after a letter is lowered, and every other letter (at the start, or after a non-letter) is raised |
| AsciiText.LowerOfTitle | lecture_3/main.py:27-32 | title-casing a name does not change its case-insensitive comparison |
| AsciiText.TitleKeepsDigits | lecture_3/main.py:27-29 | title-casing neither adds nor removes digits, so the digit check sees the typed digits |
| StudentGrades.HasDigit | lecture_3/main.py:16 | the left-to-right digit scan is true iff some character is a digit |
| StudentGrades.CheckName | lecture_3/main.py:11-22 | a name is accepted iff it has at least 2 characters and no digit; an empty name reports "empty", any digit reports "numbers" (even in a one-character name), and a single non-digit reports "too short" |
| StudentGrades.FindStudent | lecture_3/main.py:31-34 | the roster scan finds the first student whose name equals the given one ignoring case, and finds none iff no name matches |
| StudentGrades.AddNewStudent | lecture_3/main.py:25-36 | the roster is unchanged when the normalised name is invalid or already present ignoring case; otherwise exactly `{name, grades: []}` is appended at the end |
| StudentGrades.AddNewStudentKeepsRoster | lecture_3/main.py:29-36 | one addition keeps every name valid and the names pairwise distinct ignoring case |
| StudentGrades.AppendKeepsRoster | lecture_3/main.py:29-36 | appending a valid name that matches no roster name up to case keeps the roster well formed |
| StudentGrades.AddAllKeepsRoster | lecture_3/main.py:29-36 | across any run of additions, names stay valid and pairwise distinct ignoring case |
| StudentGrades.AcceptedGrades | lecture_3/main.py:64-67 | every kept grade is an entered number in 0..100, and every entered number in 0..100 is kept |
| StudentGrades.AcceptedGradesAppend | lecture_3/main.py:59-67 | answers entered in two batches append, in order, what each batch appends |
| StudentGrades.ReadGrades | lecture_3/main.py:59-70 | the grade loop appends, in order, the in-range numbers entered before the first `done`, and skips out-of-range numbers and non-numbers |
| StudentGrades.AddGradesForStudent | lecture_3/main.py:39-70 | with an empty roster, an invalid name or an unknown name the roster is unchanged and the matching error is reported; otherwise only the first matching student gains the entered grades, and every other student and every name is unchanged |
| StudentGrades.AddGradesKeepsNames | lecture_3/main.py:65 | appending grades keeps the roster's names valid and distinct |
| StudentGrades.AverageAboveExact | lecture_3/main.py:106 | comparing averages by cross-multiplication agrees with comparing the exact averages |
| StudentGrades.FindTopPerformer | lecture_3/main.py:96-114 | an empty roster reports "no students", and a roster without grades reports "no students with grades"; otherwise the result is a graded student whose average no graded student exceeds, and it is strictly above every graded student before it (the first among ties) |
| Collections.TakeUntil | lecture_2/main.py:35-39 | the collected entries are a prefix of the input, contain no `stop`, and are followed by `stop` unless the input ran out |
| UserProfile.GenerateProfile | lecture_2/main.py:9-25 | ages 1..12 give Child, 13..19 Teenager, 20 and above Adult, and 0 or below Unknown; every integer gets exactly one label and none gets no label |
| UserProfile.StageMonotone | lecture_2/main.py:19-25 | an older age never gets an earlier life stage |
| UserProfile.BornThisYearOrLater | lecture_2/main.py:32-41 | a birth year of 2025 or later gives an age of 0 or less, so the stage is Unknown |
| UserProfile.CollectHobbies | lecture_2/main.py:34-39 | the hobby list is the answers in order, up to and excluding the first literal `stop` |
| UserProfile.BuildProfile | lecture_2/main.py:27-49 | the profile holds the name, the birth year, age `2025 - birth_year`, its life stage, and the answers before `stop` |

## Left out

- HTTP routing, the 404 and 500 responses, JSON rendering and app startup (`lecture_5/book_api/main.py:1-18`) are left out. `NotFound`, `IntegrityError` and `IntegerOverflow` stand for the failures the endpoints produce.
- `lecture_5/book_api/database.py` is not part of this model. Each operation is atomic: it commits its effect when it succeeds and leaves the store unchanged when it fails. Engine and session failures such as I/O errors are not modelled.
- `lecture_5/book_api/schemas.py` is used only for field shapes. Pydantic's type coercion and request rejection happen before the core runs.
- BookApi.SearchBooks: the title and author filters are plain substring tests. SQLite's `LIKE` is case-insensitive for ASCII, and it treats `%` and `_` in the search text as wildcards. Neither behaviour is modelled.
- BookApi.FreshId: the contract promises only that the new id is unused. The body picks one above the largest id, or 1 in an empty table, which is SQLite's usual rowid choice. Reusing the largest id after a delete is possible and is not ruled out. Past the largest 64-bit id SQLite picks an unused id at random, or fails when none is left; the model keeps counting upward instead.
- The menu loop, the prompts and the printing in `lecture_3/main.py:117-153` are left out. The raw name typed at a prompt and the grade answers are parameters.
- `generate_full_report` (`lecture_3/main.py:73-93`) only prints float averages. It is left out, including its crash when no student has grades.
- AsciiText.Strip, AsciiText.TitleFrom, AsciiText.Lower and AsciiText.IsDigit follow Python's string methods on ASCII only. Unicode digits, Unicode whitespace and non-ASCII case mappings are not modelled.
- Turning the typed text into numbers with `int()` is left out. A grade answer is given already parsed as `done` (after lowering), a number, or text `int()` rejects. The birth year is given as an integer.
- StudentGrades.FindTopPerformer: the source compares float averages, and the model compares them exactly. The two differ only when distinct averages round to the same float. The result is the chosen student's index, and the printed name and one-decimal average are left out.
- StudentGrades.ReadGrades: the source keeps prompting until `done`. The model stops at the end of the given answers as well.
- UserProfile.CollectHobbies: the same applies. The source prompts until `stop`, and the model also stops at the end of the answers. Printing the hobbies with `capitalize()` is left out.
- StudentGrades.AcceptedGrades: its contract states which grades are kept, not their order. The order is stated by AcceptedGradesAppend and ReadGrades.
- `lecture_6/main.py`, a health-check endpoint, is left out.
