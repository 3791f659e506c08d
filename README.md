# Drag-and-drop quiz platform: a Dafny model of its game and quiz core

The application lets an admin author quizzes. Each quiz is a set of image
items, and every item has a correct drop position. The admin starts a live
game under a six-character join code, and players join with a nickname. Each
player submits where they placed every item. The server scores the
submission, replaces the player's total score, and broadcasts a leaderboard
when asked. A quiz can be exported as a ZIP archive and imported again. The
archive holds `quiz.csv`, `metadata.txt` and the images.

This project models that core in Dafny:

- **Models**: the relational schema from `models.py`. It has one datatype per
  table, the column defaults, the uniqueness constraints and the cascade
  ownership (quiz → items and sessions → participants → answers).
- **Tables**: the integrity constraints of the stored tables, each as a
  predicate over a table and its next primary key. Beside them are the lemmas
  that the state-changing handlers use to keep them.
- **GameServer**: a class `Server` with the tables as map fields, the answer
  log as a sequence, and every socket `emit` appended to an `outbox` of
  (target room or connection, event). Each request and socket handler is a
  method with `modifies` and a contract that states the whole new state. The
  module also holds game-code generation and the session-status transitions.
- **Scoring**: the `submit_answer` computation. It covers the correct count,
  the truncated `correct * 1000 / total` points, and one answer row per
  correct entry.
- **Leaderboard** and **Ordering**: participants ordered by score, highest
  first, with rank = position + 1. The ordering is a stable insertion sort,
  and this sort is also what orders quiz items by `item_order`.
- **Catalog**: the defaults of `create_quiz`, the partial updates of
  `update_quiz` and `update_quiz_item`, and a quiz's items in display order.
- **Transfer** and **Uploads**: the text side of export and import. This
  covers:
  - the `metadata.txt` writer and line parser;
  - `get_next_filename` over a set of existing names;
  - renaming of repeated image names on export;
  - `validate_image_file`;
  - the checks and defaults import applies before it stores anything.
- **Strings**: the Python string operations these rely on (ASCII case
  mapping, `split`/`join`, `strip`, `str(int)` and `int(str)`).
- **Common**: `Option` and `Result`.

The time-dependent and random parts become parameters:
- the random draws of `generate_game_code`;
- the stored image URL of an upload;
- the directory listing used by `get_next_filename`.

## Model

| member | source | states |
|---|---|---|
| Models.NewQuiz | models.py:24-27 | a new quiz keeps its fields; `num_positions` defaults to 4 and `layout_style` to "grid" |
| Models.NewSession | models.py:51-55 | a new session keeps its fields; `status` defaults to waiting |
| Models.NewParticipant | models.py:64-67 | a new participant keeps its fields and starts with `total_score` 0 |
| Models.NewAnswer | models.py:76-80 | a new answer row keeps its fields; `is_correct` defaults to false |
| Models.ItemsOutside | models.py:31 | deleting a quiz removes exactly its items and keeps the others unchanged |
| Models.SessionsOutside | models.py:32 | deleting a quiz removes exactly its sessions and keeps the others unchanged |
| Models.ParticipantsOutside | models.py:59 | deleting sessions removes exactly their participants |
| Models.AnswersOutside | models.py:71 | deleting participants removes exactly their answers and keeps every other answer as often as it occurred (as a multiset) |
| Models.CascadeKeepsOwnership | models.py:31-71 | after the cascade from a quiz, every participant still has a session and every answer still has a participant |
| Tables.AddSessionKeepsTables | models.py:51-59 | a session under an unused code of at most 10 characters, with the next id, keeps codes unique, ids distinct and participants owned |
| Tables.AppendAnswersOwned | models.py:71-77 | appending answers of a stored participant keeps every answer owned by a participant |
| Tables.ScoreKeepsTables | models.py:61-71 | overwriting one participant's score keeps the participant table and answer ownership |
| Tables.PutItemKeepsTable | models.py:34-43 | storing an item under its own id keeps the item table keyed by id |
| Strings.Upper | app.py:598 | `str.upper()` maps each ASCII lower-case letter to upper case and keeps every other character |
| Strings.Lower | app.py:112 | `str.lower()` maps each ASCII upper-case letter to lower case and keeps every other character |
| Strings.IndexOf | app.py:192 | the first occurrence of a character: it is there and not before |
| Strings.LastIndexOf | app.py:112 | the last occurrence of a character, as `rsplit(c, 1)` uses: it is there and not after |
| Strings.Split | app.py:189 | `split('\n')` yields at least one piece, none holding the separator |
| Strings.JoinSplit | app.py:189 | joining the pieces of a split gives the text back |
| Strings.SplitJoin | app.py:166-168 | splitting separator-free lines joined by the separator gives the lines back |
| Strings.Strip | app.py:206 | `strip()` leaves no white space at either end |
| Strings.StripIsTrim | app.py:206 | the stripped text is the slice of the name with only white space before and after it |
| Strings.StripEmptyIff | app.py:206-207 | a stripped name is blank exactly when the name is all white space |
| Strings.StripTrimmed | app.py:206 | a name without white space at either end strips to itself |
| Strings.NatToString | app.py:144 | the decimal form of a counter is non-empty digits with no leading zero |
| Strings.DigitsOfNat | app.py:144 | reading the decimal form of a counter gives the counter |
| Strings.NatToStringInjective | app.py:144 | different counters have different decimal forms |
| Strings.IntToString | app.py:168 | `str(n)` is digits and an optional minus sign, with no white space at either end |
| Strings.ParseSigned | app.py:218 | on a text without surrounding white space, `int()` succeeds exactly on digits grouped by single underscores, optionally after one `+` or `-`; the value is the digits read without underscores, negated after `-` |
| Strings.ParseInt | app.py:218 | `int(s)` is `ParseSigned` of the stripped text: it succeeds only on a non-blank text, a stripped text of plain digits parses to its value, and an unsigned text that parses is digits grouped by single underscores |
| Strings.UnderscoreExample | app.py:218 | `int("1_000")` is 1000 |
| Strings.DoubleUnderscoreExample | app.py:218 | `int("1__0")` is rejected |
| Strings.LeadingUnderscoreExample | app.py:218 | `int("_1")` is rejected |
| Strings.ParseIntToString | app.py:168 | `int(str(n)) == n` for every integer |
| Ordering.InsertBy | app.py:415 | one insertion step adds exactly the new row (as a multiset) |
| Ordering.InsertBySorted | app.py:415 | inserting into a sorted sequence keeps it sorted |
| Ordering.SortBy | app.py:415 | `ORDER BY` yields a permutation of the rows, sorted by the key |
| Scoring.CorrectCount | app.py:687-690 | the number of correct entries never exceeds the number submitted |
| Scoring.Points | app.py:702 | points are the truncated quotient `correct*1000/total` (bounded above and below), at most 1000, exactly 1000 for a full mark, and 0 when nothing is correct or nothing was submitted |
| Scoring.QuotientBounds | app.py:702 | the truncated quotient lies within [0, 1000] and is 1000 exactly for a full mark |
| Scoring.ScoreOf | app.py:684-702 | `total_items` is the number of submitted entries (not of quiz items), the correct count is the number of correct entries, and the points are the truncated `correct*1000/total` of them |
| Scoring.CorrectRows | app.py:687-699 | one answer row per correct entry, each for this participant, marked correct, holding a submitted and correct (item, position) |
| Scoring.AllCorrectIff | app.py:687-690 | the count equals the number of entries exactly when every entry is correct |
| Scoring.NoneCorrectIff | app.py:687-690 | the count is zero exactly when no entry is correct |
| Scoring.FullAndZeroMarks | app.py:702 | an all-correct non-empty submission earns 1000; one with nothing correct earns 0 |
| Scoring.AppendEntry | app.py:687-699 | one more entry adds one row and one to the count exactly when it is correct |
| Scoring.HalfCorrectExample | app.py:684-702 | one correct placement out of two scores (1, 2, 500) |
| Leaderboard.Roster | app.py:720 | the session's participants, each once, in id order, and no one else |
| Leaderboard.Standings | app.py:720-721 | the roster reordered (a permutation) with scores non-increasing |
| Leaderboard.Board | app.py:723-727 | one row per participant, rank equals position + 1, scores non-increasing |
| Leaderboard.ScorelinesPermutation | app.py:723-727 | permuting participants permutes their (nickname, score) pairs alike |
| Leaderboard.BoardIsPermutation | app.py:720-727 | the leaderboard's (nickname, score) pairs are exactly those of the roster |
| Leaderboard.SortTieBehindTop | app.py:720-721 | two tied players behind a leader keep their join order |
| Leaderboard.TieExample | app.py:720-727 | scores 300, 300, 900 rank as 900, 300, 300 with ranks 1, 2, 3 even though two scores tie |
| Catalog.CreatedQuiz | app.py:360-366 | `create_quiz` stores the empty description when none is given, 4 positions and "grid" by default |
| Catalog.PatchQuiz | app.py:456-459 | each field in the request replaces the stored one, and every other field stays |
| Catalog.EmptyQuizPatch | app.py:456-459 | an update without fields leaves the quiz as it was |
| Catalog.QuizPatchIdempotent | app.py:456-459 | applying the same update twice equals applying it once |
| Catalog.PatchItem | app.py:487-498 | each supplied item field (and a new image URL) replaces the stored one; the rest stay |
| Catalog.EmptyItemPatch | app.py:487-489 | an item update without fields leaves the item as it was |
| Catalog.ItemPatchIdempotent | app.py:487-498 | applying the same item update twice equals applying it once |
| Catalog.ItemsOf | app.py:415 | exactly the quiz's stored items, each once, in id order |
| Catalog.OrderedItems | app.py:415 | the quiz's items, as a permutation, ascending by `item_order`, containing exactly the stored items of the quiz |
| Uploads.ValidateImageFile | app.py:109-112 | an accepted name contains a dot |
| Transfer.LastDot | app.py:112 | a dot with no dot after it is where `rsplit('.', 1)` splits |
| Transfer.ValidImageHasExtension | app.py:111-112 | an accepted name has a last dot followed by an allowed extension in any letter case |
| Transfer.ExtensionMakesValidImage | app.py:111-112 | a name whose text after the last dot is an allowed extension is accepted |
| Transfer.ParseMetadata | app.py:186-193 | the line loop builds the dictionary that the specification function `MetadataOf` describes |
| Transfer.MetadataKeyPresent | app.py:190-193 | a key is present exactly when some line with a comma names it before its first comma |
| Transfer.MetadataLastWins | app.py:190-193 | a key's value comes from after the first comma of the last line naming it |
| Transfer.HeaderOf | app.py:214-218 | a missing title is "Imported Quiz", a missing description is empty, missing `num_positions` is 4; a present one must parse as an integer and is its parsed value |
| Transfer.KeyValueLine | app.py:192 | `key,value` with a comma-free key splits back into key and value, later commas kept in the value |
| Transfer.MetadataText | app.py:165-168 | the exported metadata, split at newlines, is the lines `title,…`, `description,…` (empty for none), `num_positions,…` and an empty remainder, when title and description hold no newline |
| Transfer.MetadataLines | app.py:166-168 | the exported metadata is three lines and an empty remainder |
| Transfer.MetadataOfLines | app.py:186-193 | reading the three exported lines gives the three key/value pairs |
| Transfer.MetadataTextReadsBack | app.py:166-193 | parsing the exported metadata gives title, description (empty for none) and `str(num_positions)` |
| Transfer.MetadataRoundTrip | app.py:166-218 | import reads back the exported title, description (empty for none) and number of positions when title and description are single lines |
| Transfer.HeaderDefaults | app.py:216-218 | without metadata the quiz imports as "Imported Quiz", empty description, 4 positions |
| Transfer.SplitExt | app.py:99 | `splitext` splits at the last dot: stem + extension is the name, and the extension is empty exactly when there is no dot |
| Transfer.Numbered | app.py:104 | `name_n.ext` is longer than the name |
| Transfer.NumberedInjective | app.py:104 | different counters give different names |
| Transfer.NumberedKeepsExtension | app.py:104 | numbering keeps the extension |
| Transfer.NumberedStaysValid | app.py:144 | numbering an accepted image name keeps it accepted |
| Transfer.CandidateInjective | app.py:103-105 | `get_next_filename` never tries the same name twice |
| Transfer.TriedBefore | app.py:103-105 | after c attempts, c - 1 distinct names have been tried, and the next attempt is new |
| Transfer.GetNextFilename | app.py:96-107 | the result is not taken; it is the base name when free, otherwise the first free `name_n.ext` with every earlier one taken |
| Transfer.Basename | app.py:138 | `basename` is the longest slash-free suffix of the path |
| Transfer.BaseFilename | app.py:134-138 | an item's non-empty original file name, otherwise a slash-free suffix of its image URL |
| Transfer.InsertKeepsNormal | app.py:159 | inserting characters other than dot, slash and NUL into a normal path (no NUL; no empty, `.` or `..` segment) keeps it normal |
| Transfer.NumberedNormal | app.py:144-159 | numbering a normal path gives a normal path, which the archive stores unchanged |
| Transfer.NumberedClean | app.py:144-159 | numbering a clean name (a normal path, single-line, without surrounding white space) keeps it clean |
| Transfer.ExportNamesClean | app.py:133-147 | clean base names export as clean names |
| Transfer.ExportedNames | app.py:133-147 | one exported name per item, the item's base name when no earlier item has it |
| Transfer.ExportNames | app.py:133-147 | one exported name per item |
| Transfer.ExportNamesAppend | app.py:133-147 | exporting one more item appends that item's name |
| Transfer.ExportFilenames | app.py:131-147 | the renaming loop and its counter table yield the first occurrence unchanged and the k-th repeat as `name_k.ext` |
| Transfer.ExportNamesSameBaseDistinct | app.py:141-147 | two items with the same base name get different exported names |
| Transfer.ExportNamesCollide | app.py:141-147 | base names a.png, a.png, a_1.png export as a.png, a_1.png, a_1.png (a collision) |
| Transfer.UniqueExportFilenames | app.py:141-147 | the corrected renaming: all exported names are distinct, a name is kept when free and numbered otherwise |
| Transfer.FirstMissing | app.py:205-211 | the first row from a start index whose image file is unfilled, blank or not under `images/`, with every earlier one found |
| Transfer.ImageCheck | app.py:203-259 | no error exactly when every row names a non-blank file present under `images/`; otherwise the first bad row decides the error: an unfilled column fails the import (`None.strip()`), blank gives the missing-name error, absent gives the not-in-archive error naming the file |
| Transfer.ItemSpecOf | app.py:238-259 | a row yields an item exactly when both positions convert; `correct_position` is converted first, so its error wins; the item has the row's text (default empty, `None` read as empty), stripped image name and parsed positions (default 1) |
| Transfer.FirstInvalid | app.py:224-245 | the first row from a start index that does not yield an item, with every earlier one yielding one |
| Transfer.ItemSpecs | app.py:224-245 | items exactly when every row yields one, the k-th item being the k-th row's; otherwise the first failing row's error |
| Transfer.PrepareImport | app.py:180-259 | missing `quiz.csv`, an empty CSV, the first bad image, a malformed `num_positions` and the first row that does not yield an item are rejected in that order; success means every check passed and yields the header and the rows' items |
| Transfer.UnfilledImageFails | app.py:206-259 | a row too short to fill `image_file`, after good rows, fails the whole import |
| Transfer.UnfilledPositionFails | app.py:243-259 | an unfilled `correct_position` fails the import (`int(None)`), a malformed one is invalid data |
| Transfer.ImageEntries | app.py:156-159 | an entry `images/<name>` for exactly the items whose image file is on disk |
| Transfer.CsvRows | app.py:149-154 | one CSV row per item, in item order, naming the item's exported file |
| Transfer.ExportArchive | app.py:120-168 | the archive holds `quiz.csv`, `metadata.txt` and exactly the images on disk under their exported names; one row per item in order; the metadata text |
| Transfer.QuizArchive | app.py:120-168 | the same with the names export chooses: an item whose base name no earlier item has is written under its base name |
| Transfer.RowRoundTrip | app.py:149-154 | an exported CSV row with a clean file name and a single-line text reads back as the item's text, positions and file name |
| Transfer.RowsPassImageCheck | app.py:149-211 | exported rows whose images were written pass the image check |
| Transfer.RowsReadBack | app.py:149-245 | exported rows with clean names and single-line texts read back as the items they were written from |
| Transfer.ExportImportRoundTrip | app.py:114-245 | export then import gives back title, description, positions and every item's text, positions, order and image name, for single-line texts and clean names |
| Transfer.QuizExportImportRoundTrip | app.py:114-245 | the same for the names export itself chooses, given clean base names |
| Transfer.EmptyQuizNotReimportable | app.py:200-201 | a quiz without items exports to an archive that import rejects as an empty CSV |
| GameServer.GenerateGameCode | app.py:92-93 | a code is six characters from A-Z0-9, within the 10-character column |
| GameServer.EveryCodeReachable | app.py:93 | every six-character A-Z0-9 code can be drawn |
| GameServer.GeneratedCodeCaseInsensitive | app.py:598 | a generated code survives upper-casing, including of its lower-case form |
| GameServer.RoomsApart | app.py:630-641 | a game room is never a host room, and different codes have different rooms |
| GameServer.WithStatus | app.py:647-650 | one session's status changes; every other session and the set of codes stay |
| GameServer.WithStatusKeepsKeys | app.py:647-650 | a status change keeps codes, ids and the set of session ids |
| GameServer.EndGameIdempotent | app.py:737-740 | ending a game twice equals ending it once |
| GameServer.StartReopensCompleted | app.py:647-650 | starting a completed game makes it active again (no status guard) |
| GameServer.FormInt | app.py:397-398 | a supplied field is parsed with `int()`, an absent one takes the default |
| GameServer.StatusKeepsTables | app.py:647-650 | a status change keeps the session and participant tables valid |
| GameServer.Server.constructor | app.py:41-44 | the database starts empty with valid tables |
| GameServer.Server.RegisterAdmin | app.py:292-314 | refused exactly when the lower-cased e-mail is used; otherwise the commit fails exactly when the username is used; otherwise it succeeds and exactly one admin with the next id is added |
| GameServer.Server.AddAdmin | app.py:302-309 | the new admin row takes the next id and keeps every stored admin and the unique constraints |
| GameServer.Server.CreateQuiz | app.py:356-374 | exactly one quiz with the next id and the `create_quiz` defaults is added |
| GameServer.Server.AddQuizItem | app.py:376-407 | no file or an empty file name is refused; otherwise, if the numbers parse, exactly one item (text "" and order 1 by default) is added |
| GameServer.Server.AddItem | app.py:393-402 | the new item row takes the next id and leaves every other item unchanged |
| GameServer.Server.GetQuiz | app.py:409-430 | an unknown quiz is "Quiz not found"; otherwise the quiz with exactly its items ascending by `item_order` |
| GameServer.Server.ExportQuiz | app.py:114-120 | "Quiz not found" exactly when the quiz is missing or belongs to another admin; otherwise the archive of the quiz with all its items in `item_order` |
| GameServer.Server.UpdateQuiz | app.py:449-466 | an unknown quiz is "Quiz not found"; otherwise only that quiz is patched |
| GameServer.Server.UpdateQuizItem | app.py:479-505 | an unknown item is "Item not found"; a malformed number changes nothing; otherwise only that item is patched |
| GameServer.Server.StartGame | app.py:571-593 | exactly one waiting session under the generated code with the next id, or a failed commit when the code is taken |
| GameServer.Server.AddSession | app.py:579-587 | a waiting session under a free code takes the next id and keeps the session and participant tables valid |
| GameServer.Server.JoinGame | app.py:595-621 | the code is upper-cased; unknown → "Game not found", completed → "Game has ended" with nothing added; otherwise exactly one participant with score 0 |
| GameServer.Server.HandleJoinGame | app.py:624-635 | the connection joins only the game room, and the host room is told who joined |
| GameServer.Server.HandleJoinHostRoom | app.py:637-641 | the host's connection joins both the host room and the game room |
| GameServer.Server.HandleStartGame | app.py:643-669 | an unknown code changes nothing; otherwise the session becomes active whatever its status, other sessions stay, and the game room receives the quiz with its ordered items |
| GameServer.Server.SetStatus | app.py:649 | only the status of the one session changes, and the tables stay valid |
| GameServer.Server.AnnounceStart | app.py:652-669 | the game room receives the quiz and its items in `item_order`; nothing is sent when the quiz is gone |
| GameServer.Server.RecordCorrectAnswers | app.py:683-699 | the loop counts exactly the correct entries and appends one answer row per correct entry |
| GameServer.Server.HandleSubmitAnswer | app.py:671-710 | an unknown participant changes and sends nothing; otherwise the rows are appended, the total score is overwritten by the points, and the score goes to the sender only |
| GameServer.Server.ReportScore | app.py:701-710 | the score replaces (does not add to) the total score and is sent to the sender's connection |
| GameServer.Server.HandleGetResults | app.py:712-731 | an unknown code sends nothing; otherwise the game room receives the leaderboard of the session's participants and nothing stored changes |
| GameServer.Server.HandleEndGame | app.py:733-742 | an unknown code changes nothing; otherwise the session becomes completed and the game room is told |

## Left out

- Flask routing, page rendering, CORS and configuration: these are framework plumbing.
- Login and change-password: they are password-hash checks, which are foreign calls. Register keeps its password hash as an opaque parameter.
- `get_admin_quizzes`: it is a read-only listing with date formatting.
- `delete_quiz` and `delete_quiz_item`: not modelled as `Server` methods. The quiz cascade to items and sessions, participants and answers is modelled by the pure functions and `CascadeKeepsOwnership` in Models. Two effects are not captured. An item has no delete cascade to its answers (models.py:46), so SQLAlchemy sets their NOT NULL `item_id` (models.py:78) to NULL and the commit fails with an integrity error: `delete_quiz_item` (app.py:508-516) fails for an item that has a recorded answer, and `delete_quiz` fails when a session of another quiz answered one of its items (answers are looked up by item id across quizzes). The model's cascade instead keeps such answers, with item ids that no longer exist.
- `export_quiz` and `import_quiz`: the HTTP wrappers are not modelled. The export and import logic beneath them is modelled on values in Transfer (and `Server.ExportQuiz`), with the archive as a set of entry names, the metadata text and the parsed CSV rows.
- ExportArchive: writes the entry `images/<name>` as it is. `zipfile` normalises the entry name with `os.path.normpath` and cuts it at a NUL, so a name with a NUL or an empty, `.` or `..` segment (`./a.png`, `a//b.png`) is stored under another entry name and the image check then misses it. The round-trip lemmas require clean names, which rule these out (`NormalPath`).
- PrepareImport: an import error other than `ValueError` and `KeyError` is "Import failed" (`ImportFailed`); of those, only `strip()` and `int()` on the `None` of a short CSV row are modelled. A failing upload or a non-UTF-8 file is not.
- ZIP encoding, CSV quoting and `csv.DictReader`: these are library formats.
- Image storage to GCS or local disk, `secure_filename` and time stamps: these are I/O. The stored image URL is a parameter.
- Randomness: `generate_game_code` takes its six draws as a parameter. There is no retry on a collision, so a taken code is a failed commit (`CodeTaken`).
- Socket.IO delivery, connection identity and concurrent handlers: events are appended to an outbox, and a connection is a string id.
- SQLAlchemy sessions: every commit takes effect at once. Foreign keys are not enforced, as on the default SQLite database (app.py:21-25), so a quiz id is never checked by `start_game` or `add_quiz_item`. On PostgreSQL such a commit fails instead; that behaviour is not modelled.
- PrepareImport: import stores rows one by one after the checks. When `int()` fails on a later row, the flushed quiz is never committed and is discarded, but the earlier images are already uploaded. The model stops at the validated plan and does not capture those stray uploads.
- Ties in `ORDER BY` (app.py:120, 415, 653, 720-721): SQL leaves the order of equal keys unspecified on both SQLite and PostgreSQL. The model breaks ties by id (insertion) order; Leaderboard.SortTieBehindTop, Leaderboard.TieExample and Catalog.OrderedItems state that model choice.
- SortTieBehindTop: the tied players' join order is the model's tie order, not something the source promises.
- TieExample: ranks 2 and 3 between the two tied players follow the model's tie order; the database may give them the other way round.
- Export through `csv.writer` and back through `splitlines()` and `csv.DictReader`: a value holding a line break does not come back intact, so the archive's rows are the written rows only for single-line values. ExportImportRoundTrip, RowsReadBack and RowRoundTrip require single-line texts and names.
- Scoring.Points: uses the integer quotient `correct*1000/total` rather than the float expression `int((c/t)*1000)`. The two can differ in rare rounding cases.
- HandleSubmitAnswer: entries are (item id, position) pairs of integers. JSON's string keys and a string position that never equals a stored integer position are not modelled.
- Catalog.PatchQuiz: a JSON `null` sent for a field is not modelled, since the patch holds `Option` values.
- Strings.Upper: ASCII case mapping only; Python's Unicode upper-casing is not modelled.
- Strings.Lower: ASCII case mapping only; Python's Unicode lower-casing is not modelled.
- Strings.Strip: ASCII white space only; Unicode white space is not modelled.
- Strings.ParseInt: ASCII digits and white space only. `int()` also accepts non-ASCII decimal digits and Unicode white space, which are not modelled.
- Transfer.SplitExt: splits at the last dot. Python's special case for a leading dot (`.png` has no extension) is not modelled, nor that `splitext` only looks for the dot after the last slash (`d.x/a` has no extension).
- The session state machine: the code has no status guard. Starting a completed game makes it active again, and the model follows the code (`StartReopensCompleted`) rather than a waiting → active → completed order that never goes back.

## Findings

| source | as written | input that shows it | evidently intended | confidence | as-written member | corrected member |
|---|---|---|---|---|---|---|
| app.py:141-147 | repeats of a base name are numbered `name_k.ext` without checking that name against names already written | image names a.png, a.png, a_1.png export as a.png, a_1.png, a_1.png: two images share the archive entry `images/a_1.png`, and import loads one of them for both items | every exported image gets its own archive entry | high (not executed) | Transfer.ExportNamesCollide | Transfer.UniqueExportFilenames |
