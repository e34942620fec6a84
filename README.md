# mcq-bot question bank, modelled in Dafny

mcq-bot is a Telegram bot that serves multiple-choice questions. Questions come from
spreadsheets. A strict parser reads a fixed column layout. A language-model parser first turns
each row into a dictionary keyed by the header row. Each parsed row is then ingested into a
SQLite question bank: one question, up to five answers, exactly one of them correct. The bot
then:

- hands out questions a user has not yet answered correctly;
- records the user's answers;
- reports integer progress statistics;
- nudges every scheduled user once a day.

This project models that core and proves its properties.

- **The bank.** The five tables (`Question`, `Answer`, `Filename`, `Attempt`, `User`) are one
  `Store` value (`Schema`). Each table is a sequence in rowid order. For the user table, whose
  integer primary key is the Telegram id and so is the rowid itself, that order is ascending id.
  - `Schema.Valid` states the unique constraints and the foreign keys, and that ids run 1, 2, 3, ….
    Foreign keys are enforced because every connection turns on `PRAGMA foreign_keys=ON`
    (src/mcq_bot/db/connection.py:34).
  - `Schema.Database` is a class with the committed state and the state an open session sees,
    plus `Commit` and `Rollback`.
  - The operations that write (the ingestion of a row, recording an attempt, upserting a user)
    are methods on that class. Each is proved against a specification function.
- **Answer letters and the one-correct rule** (`DbTypes`, `ParserUtils`): the letter/ordinal
  dictionaries built by `zip`/`dict`, and `validate_only_one_correct_answer`.
- **The strict spreadsheet parser** (`ExcelParser`): `_extract_question`, `_process_row` and
  the row loop of `parse`, over rows of cell values. The loops are methods with invariants,
  proved against the functions `ProcessedRowOf` and `ParseUpTo`.
- **The language-model parser** (`OpenAiParser`): the header-keyed dictionary of
  `_format_row_to_dict`, a loop proved against `RowDict`, and the final filter that drops the
  rows the model failed to parse.
- **Ingestion** (`DbUtils`): `add_question_and_answers` as a transaction:
  1. get or create the file's row;
  2. insert the question, then its answers;
  3. check the one-correct rule;
  4. commit, or roll back and classify the row as a duplicate.
- **The managers** (`QuestionManager`, `AnswerManager`, `AttemptManager`, `UserManager`):
  - lookups and counting;
  - the choice of a question not yet answered correctly;
  - the attempt insert, which does nothing if the attempt already exists;
  - the user upsert;
  - the scheduled-user filter.
- **Messages, nudges and the daily job** (`Message`, `SendNudge`, `ScheduleJob`):
  - the command-argument splitter;
  - the integer statistics;
  - the choice of nudge text;
  - the loop that nudges every scheduled user, in which one user's failure does not stop the rest.

Some things become parameters:

- **Time.** "Today" and "now" are integer day or time numbers.
- **Randomness.** The database's random order is a number `pick`.
- **Abstract helpers.**
  - `get_attempted` becomes the `attempted` and `correct` inputs.
  - `get_attempted_today` becomes `attempted` / `attemptedOf`.
  - `get_daily_target` becomes `target` / `targetOf`.
  - `get_attempted_today` and `get_daily_target` are called by src/mcq_bot/senders/send_nudge.py
    but are not defined in the files the model covers.
- **Delivery.** Whether the chat transport delivers a message is a boolean.

Exceptions are values of `Outcomes.Error`.

## Model

| member | source | states |
|---|---|---|
| DbTypes.Zip | src/mcq_bot/db/db_types.py:6 | `zip` pairs the i-th elements and stops at the shorter sequence |
| DbTypes.DictOfContents | src/mcq_bot/db/db_types.py:6 | `dict` of pairs with distinct keys has one entry per pair, each holding its pair's value |
| DbTypes.Invert | src/mcq_bot/db/db_types.py:8 | the comprehension `{v: k for k, v in …}` of an injective map has its values as keys and sends each value back to its key |
| DbTypes.AnswerLetterToIntContents | src/mcq_bot/db/db_types.py:3-6 | `ANSWER_LETTER_TO_INT` has exactly the keys A to E, maps the i-th valid letter to i, and its range is 0..4 |
| DbTypes.AnswerLetterToIntInjective | src/mcq_bot/db/db_types.py:6-8 | no two letters share an ordinal, so the inversion is well defined |
| DbTypes.AnswerIntToLetterContents | src/mcq_bot/db/db_types.py:8 | `ANSWER_INT_TO_LETTER` has the keys 0..4 and maps i to the i-th letter |
| DbTypes.AnswerLetterRoundTrips | src/mcq_bot/db/db_types.py:6-8 | both maps have five entries; letter→int→letter and int→letter→int are the identity |
| ParserUtils.CorrectAnswers | src/mcq_bot/db/parsers/utils.py:6 | the comprehension keeps only answers marked correct, each taken from the list |
| ParserUtils.CorrectAnswersAppend | src/mcq_bot/db/parsers/utils.py:6 | the correct answers of a concatenation are those of each part, in order |
| ParserUtils.ValidateOnlyOneCorrectAnswer | src/mcq_bot/db/parsers/utils.py:4-10 | a failure is NoCorrectAnswerException carrying a count other than 1 |
| ParserUtils.ValidatePassesIffExactlyOne | src/mcq_bot/db/parsers/utils.py:4-10 | the check passes if and only if exactly one position holds a correct answer |
| ParserUtils.NoCorrectAnswerFails | src/mcq_bot/db/parsers/utils.py:7-10 | with no correct answer (the empty list included) it raises with count 0 |
| ParserUtils.TwoCorrectAnswersFail | src/mcq_bot/db/parsers/utils.py:7-10 | with two correct answers at different positions it raises |
| ParserUtils.ValidateIgnoresOrder | src/mcq_bot/db/parsers/utils.py:4-10 | any permutation of the list gives the same count and the same outcome |
| Strings.StripFacts | src/mcq_bot/db/parsers/excel.py:34-35 | `strip()` leaves no leading or trailing whitespace, never lengthens, and is empty iff the text is all whitespace |
| Strings.UpperFacts | src/mcq_bot/db/parsers/excel.py:46 | `upper()` keeps the length and upper-cases every character |
| Strings.UpperFirst | src/mcq_bot/db/parsers/excel.py:62 | `val[:1].upper() + val[1:]` changes only the first character |
| Strings.SplitOnce | src/mcq_bot/utils/message.py:25 | `split(" ", maxsplit=1)` gives one piece iff the separator is absent, otherwise the part before its first occurrence and the rest, which rejoin to the text |
| ExcelParser.Str | src/mcq_bot/db/parsers/excel.py:34 | `str(cell.value)` is "None" for an empty cell and the text itself for a text cell |
| ExcelParser.ExtractQuestion | src/mcq_bot/db/parsers/excel.py:32-37 | a row with fewer than nine cells raises IndexError; otherwise the question is column 1 stripped and the explanation column 8 stripped |
| ExcelParser.BlankExplanationIsNone | src/mcq_bot/db/parsers/excel.py:35 | an empty explanation cell becomes the text "None" |
| ExcelParser.OptionText | src/mcq_bot/db/parsers/excel.py:56-60 | an option cell gives no option iff it is falsy or strips to nothing; otherwise its stripped, non-empty text |
| ExcelParser.Formatted | src/mcq_bot/db/parsers/excel.py:62 | formatting keeps an absent option absent and upper-cases only the first character of a present one |
| ExcelParser.ValidLetterIffListed | src/mcq_bot/db/parsers/excel.py:46-51 | the letter is accepted iff it is non-empty and one of A to E, and it is the letter at its own offset |
| ExcelParser.LetterAtIndexOnly | src/mcq_bot/db/parsers/excel.py:65 | `answer_keys[idx] == correct_letter` holds exactly at the correct letter's offset |
| ExcelParser.OptionAt | src/mcq_bot/db/parsers/excel.py:58-68 | an empty cell gives no option; any other gives one option keyed by its offset, correct iff the offset is the correct one |
| ExcelParser.OptionsShape | src/mcq_bot/db/parsers/excel.py:55-69 | the collected options number at most the cells seen, have strictly increasing keys, and each comes from its non-empty cell |
| ExcelParser.OptionsComplete | src/mcq_bot/db/parsers/excel.py:55-69 | every non-empty option cell contributes its option |
| ExcelParser.OptionsCorrectCount | src/mcq_bot/db/parsers/excel.py:55-69 | the options hold one correct answer if the correct letter's cell is non-empty, and none otherwise |
| ExcelParser.RowAnswersCorrectCount | src/mcq_bot/db/parsers/excel.py:55-73 | the same count for the five option cells of a row |
| ExcelParser.RowAnswersShape | src/mcq_bot/db/parsers/excel.py:55-69 | at most five answers; keys strictly increasing within 0..4; each answer's text is its stripped cell with the first character upper-cased; an answer is correct iff the letter at its key is the correct letter |
| ExcelParser.QuestionPrefix | src/mcq_bot/db/parsers/excel.py:76 | `text[:50]` is a prefix of at most 50 characters, and the whole text when shorter |
| ExcelParser.ProcessedRowOkIff | src/mcq_bot/db/parsers/excel.py:39-79 | a row is accepted iff it has nine cells, a valid letter and a non-empty cell for that letter; an accepted row has exactly one correct answer |
| ExcelParser.ProcessedRowCases | src/mcq_bot/db/parsers/excel.py:45-51 | a short row raises IndexError, an invalid letter raises NoCorrectAnswerException naming the letter, and an acceptance returns the extracted question and the collected options |
| ExcelParser.MissingOptionRefused | src/mcq_bot/db/parsers/excel.py:72-77 | a valid letter whose cell is empty is refused with count 0 under the question's 50-character prefix |
| ExcelParser.CollectAnswers | src/mcq_bot/db/parsers/excel.py:53-69 | the loop over the option cells builds exactly the options `RowAnswers` specifies |
| ExcelParser.ProcessRow | src/mcq_bot/db/parsers/excel.py:39-79 | `_process_row` returns exactly `ProcessedRowOf(row)` |
| ExcelParser.AsWrittenDiffersOnMissingOption | src/mcq_bot/db/parsers/excel.py:72-77 | the code as written and the corrected model differ exactly on rows with a valid letter and an empty cell for it; there the code raises AttributeError |
| ExcelParser.AsWrittenRaisesAttributeError | src/mcq_bot/db/parsers/excel.py:74-77 | on the sample row the code as written raises AttributeError |
| ExcelParser.CorrectedReportsNoCorrectAnswer | src/mcq_bot/db/parsers/excel.py:74-77 | on the sample row the corrected model raises NoCorrectAnswerException with count 0 under the prefix "Q" |
| ExcelParser.RowStep | src/mcq_bot/db/parsers/excel.py:92-100 | a row without column 1 raises IndexError; an empty column 1 is skipped; an accepted row is kept; a refusal is re-raised with the sheet row number idx + 2 |
| ExcelParser.ParseKeepsQuestionRows | src/mcq_bot/db/parsers/excel.py:91-102 | the parse succeeds iff every row has a column 1 and every row with a question there is accepted; it then returns one processed row per such row, in order |
| ExcelParser.ParseStopsAtError | src/mcq_bot/db/parsers/excel.py:97-100 | once a row is refused, later rows do not change the result |
| ExcelParser.ParseAdvance | src/mcq_bot/db/parsers/excel.py:91-100 | one more row ends the parse with its error, leaves the result as it was, or appends the row |
| ExcelParser.ParseRow | src/mcq_bot/db/parsers/excel.py:92-100 | the loop body computes `RowStep` for the row |
| ExcelParser.Parse | src/mcq_bot/db/parsers/excel.py:81-102 | the loop of `parse` returns exactly `ParseUpTo(rows)` |
| OpenAiParser.UnnamedColumn | src/mcq_bot/db/parsers/openai.py:60 | the placeholder is "Unnamed column " followed by the decimal index |
| OpenAiParser.UnnamedColumnInjective | src/mcq_bot/db/parsers/openai.py:60 | different positions get different placeholders |
| OpenAiParser.ColumnKey | src/mcq_bot/db/parsers/openai.py:57-60 | the key is `str(header)` when the header row has a truthy cell at that position, and the placeholder otherwise |
| OpenAiParser.CellText | src/mcq_bot/db/parsers/openai.py:61 | the value is `str(cell)` when truthy, and "Empty" otherwise |
| OpenAiParser.RowDictHasKey | src/mcq_bot/db/parsers/openai.py:55-61 | every cell's key is in the dictionary |
| OpenAiParser.RowDictKeyFromCell | src/mcq_bot/db/parsers/openai.py:55-61 | every key of the dictionary is some cell's key |
| OpenAiParser.RowDictFreshKey | src/mcq_bot/db/parsers/openai.py:55-61 | a key that no cell has is absent |
| OpenAiParser.RowDictSizeBound | src/mcq_bot/db/parsers/openai.py:55-62 | the dictionary has at most as many keys as the row has cells |
| OpenAiParser.RowDictLastWins | src/mcq_bot/db/parsers/openai.py:61 | a key holds the text of the last cell with that key |
| OpenAiParser.RowDictDistinctKeys | src/mcq_bot/db/parsers/openai.py:55-62 | with pairwise different keys there is one entry per cell, each holding that cell's text |
| OpenAiParser.FormatRowToDict | src/mcq_bot/db/parsers/openai.py:47-62 | the loop of `_format_row_to_dict` (with the intended header test) builds exactly `RowDict` |
| OpenAiParser.ColumnKeyAsWritten | src/mcq_bot/db/parsers/openai.py:57 | the guard as written fails exactly at the position just past the header row, and agrees with `ColumnKey` elsewhere |
| OpenAiParser.AsWrittenFailsOnLongRows | src/mcq_bot/db/parsers/openai.py:56-61 | as written, the loop raises IndexError iff the row has more cells than the header row, and otherwise builds the corrected dictionary |
| OpenAiParser.LongRowCounterexample | src/mcq_bot/db/parsers/openai.py:57 | a one-cell header row with a two-cell data row raises as written; corrected, it stores the second cell under "Unnamed column 1" |
| OpenAiParser.KeepParsed | src/mcq_bot/db/parsers/openai.py:129 | the filtered list is no longer than the raw results |
| OpenAiParser.KeepParsedMultiset | src/mcq_bot/db/parsers/openai.py:129 | each processed row is kept exactly as often as it was parsed: the kept rows are the non-None results as a multiset |
| OpenAiParser.KeepParsedMembers | src/mcq_bot/db/parsers/openai.py:129 | a row is kept iff some result parsed to it |
| OpenAiParser.KeepParsedAppend | src/mcq_bot/db/parsers/openai.py:129 | filtering commutes with concatenation, so kept rows keep the order of the results |
| Schema.EmptyStoreValid | src/mcq_bot/db/utils.py:15-16 | the freshly created, empty tables satisfy every constraint |
| Schema.AnswersOf | src/mcq_bot/db/schema.py:31-33 | the relationship lists only answers of the question |
| Schema.AnswersOfMembers | src/mcq_bot/db/schema.py:31-33 | an answer is listed iff it is in the table and references the question |
| Schema.AnswersOfUnique | src/mcq_bot/db/schema.py:40 | one question's answers inherit the (key, question) uniqueness |
| Schema.InsertByKey | src/mcq_bot/db/schema.py:32 | insertion by key adds exactly one element and loses none |
| Schema.InsertByKeySorted | src/mcq_bot/db/schema.py:32 | inserting a key no element has keeps the order strictly ascending |
| Schema.SortByKey | src/mcq_bot/db/schema.py:32 | `order_by="Answer.key"` is a permutation of the answers |
| Schema.SortByKeySorted | src/mcq_bot/db/schema.py:32 | answers with distinct keys come out in strictly ascending key order |
| Schema.QuestionAnswersOrdered | src/mcq_bot/db/schema.py:31-33 | `Question.answers` holds exactly the question's answers, in strictly ascending key order |
| Schema.NewUser | src/mcq_bot/db/schema.py:82-84 | a new user has the given id and exam date and is scheduled by default |
| Schema.Database.constructor | src/mcq_bot/db/utils.py:15-16 | a created database has empty tables and no pending changes |
| Schema.Database.Commit | src/mcq_bot/db/utils.py:70 | commit makes the session's state the committed state |
| Schema.Database.Rollback | src/mcq_bot/db/utils.py:44 | rollback discards the session's changes, a file row added in the same session included |
| Seqs.FindFirst | src/mcq_bot/managers/answer.py:13 | `scalar(select … where …)` over a table scanned in order: None iff no row matches, otherwise a matching row with no match before it |
| DbUtils.FindFilename | src/mcq_bot/db/utils.py:20-22 | finds the first row with the path, or reports that none has it |
| DbUtils.FindQuestionByText | src/mcq_bot/db/utils.py:45 | finds a question with the text iff one exists |
| DbUtils.FilenameGetOrCreateFacts | src/mcq_bot/db/utils.py:19-29 | a known path returns its id and leaves the store as it was; an unknown one appends exactly one row with the next id; the store stays valid and only the file table changes |
| DbUtils.AddFilenameIfNotExists | src/mcq_bot/db/utils.py:19-29 | the method changes the session as `FilenameGetOrCreate` specifies and does not commit |
| DbUtils.InsertQuestion | src/mcq_bot/db/utils.py:32-40 | the flush either appends the question with the next id or fails with IntegrityError |
| DbUtils.InsertQuestionIffValid | src/mcq_bot/db/utils.py:32-40 | the flush succeeds iff the store with the new question satisfies every constraint |
| DbUtils.AddQuestion | src/mcq_bot/db/utils.py:32-40 | `_add_question` flushes the new question into the session, or fails with IntegrityError and leaves the session as it was |
| DbUtils.NewAnswers | src/mcq_bot/db/utils.py:64-66 | one answer row per input answer, in order, with consecutive ids and the answer's fields |
| DbUtils.PendingAnswers | src/mcq_bot/db/utils.py:64-66 | the loop over the answers builds exactly `NewAnswers` |
| DbUtils.FlushAnswers | src/mcq_bot/db/utils.py:64-70 | the flush at commit appends the answers or fails with IntegrityError |
| DbUtils.NewAnswersFitIff | src/mcq_bot/db/utils.py:64-70 | the new answers satisfy the constraints iff their keys are pairwise distinct |
| DbUtils.AfterIntegrityError | src/mcq_bot/db/utils.py:78-89 | after the rollback the committed store is unchanged; the result is "duplicate" iff a question with the same text exists, and the IntegrityError is re-raised otherwise |
| DbUtils.GetQuestionByText | src/mcq_bot/db/utils.py:43-46 | `_get_question_by_text` rolls the session back and returns a question with that text iff one is committed |
| DbUtils.HandleIntegrityError | src/mcq_bot/db/utils.py:78-89 | the except branch leaves no pending changes and returns what `AfterIntegrityError` specifies |
| DbUtils.AddQuestionAndAnswers | src/mcq_bot/db/utils.py:49-89 | the whole call leaves no pending changes, and its result and committed state are those of `Ingest` |
| DbUtils.IngestDuplicate | src/mcq_bot/db/utils.py:78-89 | a row whose (text, explanation) exists returns False and leaves the store unchanged, a new file row included |
| DbUtils.IngestRejectsRow | src/mcq_bot/db/utils.py:68 | a new row without exactly one correct answer raises NoCorrectAnswerException with the count, and nothing is persisted |
| DbUtils.AddedStore | src/mcq_bot/db/utils.py:59-77 | the store after a success has one more question (next id, the file's id) and one answer row per input answer; the other tables are those after the get-or-create |
| DbUtils.IngestAdds | src/mcq_bot/db/utils.py:59-77 | a new, valid row with distinct keys is added and the result is True |
| DbUtils.IngestKeyClash | src/mcq_bot/db/utils.py:78-81 | a new row with a repeated answer key hits the answer constraint and is handled like any IntegrityError |
| DbUtils.NewAnswersCorrect | src/mcq_bot/db/utils.py:64-68 | the answer rows hold as many correct answers of the question as the input answers do |
| DbUtils.IngestOutcome | src/mcq_bot/db/utils.py:49-89 | the result is True iff the row is new, has exactly one correct answer and has distinct keys; then the store is `AddedStore`, otherwise it is unchanged |
| DbUtils.AddedStoreValid | src/mcq_bot/db/utils.py:59-77 | a successful addition keeps every constraint |
| DbUtils.IngestValid | src/mcq_bot/db/utils.py:49-89 | ingestion keeps every constraint, whatever the row |
| DbUtils.AddedStoreOneCorrect | src/mcq_bot/db/utils.py:68-70 | adding a row with one correct answer keeps every question at exactly one correct answer |
| DbUtils.IngestKeepsOneCorrect | src/mcq_bot/db/utils.py:68-70 | ingestion preserves the one-correct-answer invariant |
| DbUtils.IngestSettles | src/mcq_bot/db/utils.py:49-89 | after ingesting a row, the row is either present or can never be added; the store stays valid and no question is lost |
| DbUtils.SettledUnchanged | src/mcq_bot/db/utils.py:78-89 | ingesting a settled row changes nothing |
| DbUtils.IngestEachSettles | tests/db/test_question_bulk_add.py:66-71 | after a pass over the rows, every row is settled; the pass keeps the store valid and no question is lost |
| DbUtils.IngestEachSettledUnchanged | tests/db/test_question_bulk_add.py:66-71 | a pass over settled rows changes nothing |
| DbUtils.IngestEachTwice | tests/db/test_question_bulk_add.py:66-71 | adding the same rows a second time, at any later time, leaves the store (and so the question count) as after the first pass |
| AnswerManager.FindAnswer | src/mcq_bot/managers/answer.py:13 | finds a row with the id, or reports that none has it |
| AnswerManager.GetAnswer | src/mcq_bot/managers/answer.py:12-13 | `get_answer` returns an answer with that id, or None iff there is none |
| AnswerManager.GetAnswerByRowId | src/mcq_bot/managers/answer.py:12-13 | with rowid ids, `get_answer(i)` is row i, and None outside 1..count |
| AnswerManager.FindCorrect | src/mcq_bot/managers/answer.py:18-22 | finds a correct answer of the question, or reports that there is none |
| AnswerManager.GetCorrectAnswer | src/mcq_bot/managers/answer.py:17-25 | returns a correct answer of the question from the table, and ValueError iff the question has no correct answer |
| AnswerManager.CorrectAnswerUnique | src/mcq_bot/managers/answer.py:17-25 | under the one-correct invariant of ingestion, every question has its correct answer found, and it is the only one |
| AttemptManager.FindAttempt | src/mcq_bot/managers/attempt.py:13-17 | finds the user's attempt on the answer, or reports that there is none |
| AttemptManager.RecordAttempt | src/mcq_bot/managers/attempt.py:12-21 | succeeds iff the attempt exists or the answer and the user do; an existing attempt leaves the store unchanged; a failure is IntegrityError |
| AttemptManager.RecordAttemptFacts | src/mcq_bot/managers/attempt.py:12-21 | afterwards the store is valid, exactly one attempt exists for the pair, at most one attempt was appended, and it is for the pair; other attempts and tables are unchanged |
| AttemptManager.RecordAttemptIdempotent | src/mcq_bot/managers/attempt.py:18 | a second call, at any later time, changes nothing: the first timestamp stays |
| AttemptManager.AddOrUpdateUserAttempt | src/mcq_bot/managers/attempt.py:12-21 | the method commits exactly `RecordAttempt`'s store, or fails with IntegrityError and leaves the database unchanged |
| UserManager.FindUser | src/mcq_bot/managers/user.py:15 | finds the user with the id iff there is one |
| UserManager.GetUser | src/mcq_bot/managers/user.py:27-31 | returns the user with that id, and ValueError iff there is none |
| UserManager.UpsertUserValid | src/mcq_bot/managers/user.py:14-23 | `add_user` keeps every constraint and changes only the user table |
| UserManager.UpsertUserLookups | src/mcq_bot/managers/user.py:14-23 | afterwards `get_user(id)` has the exam date given; an absent user is created as a new, scheduled user; a present one changes only `exam_dt`; every other lookup is unchanged |
| UserManager.AddUser | src/mcq_bot/managers/user.py:14-23 | the method commits `UpsertUser` and returns the user `get_user` then finds |
| UserManager.ScheduledUsersMembers | src/mcq_bot/managers/user.py:35-41 | a user is listed iff it is scheduled and, unless told otherwise, its exam is strictly after today |
| UserManager.InsertUserInOrder | src/mcq_bot/db/schema.py:80 | storing a new user under an id the table does not hold keeps the table in ascending id order |
| UserManager.ScheduledUsersInIdOrder | src/mcq_bot/managers/user.py:35-41 | without ORDER BY the users come in table order, that is, in ascending Telegram id |
| UserManager.ScheduledUsersInsert | src/mcq_bot/managers/user.py:35-41 | registering a new user puts it at its id position in the list when it qualifies, and leaves the list unchanged otherwise |
| QuestionManager.FindQuestion | src/mcq_bot/managers/question.py:18 | finds a question with the id, or reports that none has it |
| QuestionManager.GetQuestion | src/mcq_bot/managers/question.py:17-18 | `get_question` returns a question with that id, or None iff there is none |
| QuestionManager.GetQuestionByRowId | src/mcq_bot/managers/question.py:17-18 | with rowid ids, `get_question(i)` is row i, and None outside 1..count |
| QuestionManager.GetQuestionByAnswer | src/mcq_bot/managers/question.py:12-13 | a question found is the one the answer references |
| QuestionManager.QuestionByAnswerFound | src/mcq_bot/managers/question.py:12-13 | in a valid store a question is found iff the answer exists |
| QuestionManager.Scope | src/mcq_bot/managers/question.py:25 | `if filename:` filters only for a present, non-empty path |
| QuestionManager.GetQuestionCount | src/mcq_bot/managers/question.py:22-30 | a count is positive; a failure is ValueError |
| QuestionManager.CountAll | src/mcq_bot/managers/question.py:22-30 | without a path, the count of all questions, and ValueError for an empty bank |
| QuestionManager.CountFile | src/mcq_bot/managers/question.py:22-30 | with a path, the number of the file's questions (at most the total), ValueError iff that number is 0, so also for an unknown path |
| QuestionManager.FileId | src/mcq_bot/managers/question.py:54-56 | the scalar subquery is empty iff no file has the path |
| QuestionManager.InFileIffFileId | src/mcq_bot/managers/question.py:25-57 | in a valid store, the join on the path and the subquery on the file id select the same questions |
| QuestionManager.RandomQuestionSound | src/mcq_bot/managers/question.py:34-60 | a question served is in the bank, not answered correctly by the user, and in the file when one is given |
| QuestionManager.RandomQuestionNoneIff | src/mcq_bot/managers/question.py:47-59 | None is returned iff no question is eligible |
| QuestionManager.RandomQuestionReach | src/mcq_bot/managers/question.py:47-52 | every eligible question is served for some random choice |
| QuestionManager.RandomQuestionUnknownFile | src/mcq_bot/managers/question.py:53-57 | an unknown path yields None |
| QuestionManager.WrongAttemptKeepsEligible | src/mcq_bot/managers/question.py:40-45 | recording an attempt on a wrong answer leaves every user's eligible questions unchanged |
| QuestionManager.CorrectAttemptExcludes | src/mcq_bot/managers/question.py:40-49 | after an attempt on a correct answer, that question is never served to that user |
| Message.GetUserId | src/mcq_bot/utils/message.py:12-16 | the sender id when truthy, and an error for a missing or zero id |
| Message.ExtractNoneIff | src/mcq_bot/utils/message.py:24-28 | the result is None iff the text contains no space |
| Message.ExtractSplits | src/mcq_bot/utils/message.py:24-28 | otherwise head + " " + result is the text, and the head has no space |
| Message.ExtractAfterFirstSpace | src/mcq_bot/utils/message.py:24-28 | after a head without spaces, everything after the first space is returned, spaces and the empty rest included |
| Message.ExtractWithArguments | tests/utils/test_message.py:4-6 | "/start my extracted text" gives "my extracted text" |
| Message.GetStats | src/mcq_bot/utils/message.py:38-50 | ValueError iff the bank is empty or the user unknown; otherwise the total, the given counts, and the exam day minus today (negative for a past exam) |
| Message.Remaining | src/mcq_bot/utils/message.py:65-74 | ZeroDivisionError iff the total, the attempted count or the days till the exam is 0; otherwise remaining + attempted = total |
| Message.StatsMessageFormed | src/mcq_bot/utils/message.py:53-75 | the message can be formed iff the bank is non-empty, the user known, something attempted and the exam not today; then remaining is the bank size minus the attempts |
| SendNudge.NudgeTextChoice | src/mcq_bot/senders/send_nudge.py:15-24 | no message iff attempted ≥ target; with nothing done, the days-and-target text; otherwise the text with the count done and a shortfall of at least 1 |
| SendNudge.NudgeTextsDiffer | src/mcq_bot/senders/send_nudge.py:19-24 | the two kinds of message never coincide |
| SendNudge.SendFacts | src/mcq_bot/senders/send_nudge.py:9-28 | nothing is sent iff the user is known and at target; a failure happens iff the user is unknown (ValueError) or a needed message is not delivered; a send is one message to the user's chat whose button carries the user's id and whose text uses the exam day minus today |
| ScheduleJob.Turn | src/mcq_bot/schedule_job.py:16-22 | one log line for the user and at most one message, only to a user below target; for a listed user, a logged failure is a failed delivery |
| ScheduleJob.JobStep | src/mcq_bot/schedule_job.py:15-22 | each turn appends its log line and its messages |
| ScheduleJob.Job | src/mcq_bot/schedule_job.py:13-22 | the loop produces exactly `JobLog` and `JobNudges` for the scheduled users |
| ScheduleJob.JobLogOnePerUser | src/mcq_bot/schedule_job.py:15-22 | every user gets exactly one log line, in list order, success or failure alike |
| ScheduleJob.JobNudgesTargets | src/mcq_bot/schedule_job.py:14-17 | no more messages than users; each goes to a listed user below target, with that user's id on the button |
| ScheduleJob.JobFailuresAreDeliveries | src/mcq_bot/schedule_job.py:16-22 | for users the store lists, the only failures logged are failed deliveries |
| ScheduleJob.JobScope | src/mcq_bot/schedule_job.py:14-17 | only scheduled users whose exam is strictly after today are nudged, and the only failures are deliveries |

## Behaviour worth knowing

- **Rollback of a new file row.** When a row is a duplicate or breaks an answer constraint,
  `_get_question_by_text` rolls the session back (src/mcq_bot/db/utils.py:44). The rollback
  also discards a file row created earlier in the same call, so the file is not recorded
  (`DbUtils.IngestDuplicate`).
- **Empty count.** `get_question_count` raises ValueError whenever its count is 0,
  including a file-scoped count of 0 (src/mcq_bot/managers/question.py:28-29). It never
  returns 0.
- **Empty filename.** `if filename:` treats the empty path like None, so it counts and serves
  from every file.
- **Unregistered users.** An attempt by an unknown user, or on an unknown answer, violates a
  foreign key and raises IntegrityError, because foreign keys are on.

## Left out

- **Telegram:** the client, handlers, `get_user_name` and the message sending itself. The
  model returns the nudge as a value, and delivery is a boolean input.
- **The language-model path** of db/parsers/openai.py, because it is a network client run
  under asyncio:
  - the LLM requests;
  - the worker queue;
  - the progress bar.
- **Workbook loading** (openpyxl), which is file I/O. A sheet is given as its rows of cell
  values, and the header row is a separate argument.
- **scripts/add_questions.py** and `QuestionManager.bulk_add`. Neither is part of this model.
  `DbUtils.IngestEach` stands for consecutive `add_question_and_answers` calls over a list of
  rows.
- **Helpers that are not part of this model:**
  - `get_attempted`, `get_attempted_today` and `get_daily_target` are integer inputs;
  - `get_all_users` is not used by the core.
- **SQLAlchemy machinery.** Sessions, the `with_session` decorator, the engine, WAL mode and
  concurrent access are not modelled. Each manager call is one atomic step on `Database`.
- **Timestamps** from `func.now()` are the `now` input. Dates are integer day numbers, and
  `date.today()` is the `today` input.
- **Floating-point parts** of `format_stats_message`: the two percentages and the per-day
  figure. Only the integer `remaining` and the three divisions by zero are modelled.
- **Message texts.** Exception messages, logging and the exact wording of error strings are not
  modelled. NoCorrectAnswerException carries a structured reason (letter, count, question
  prefix, row number) instead of text.
- **`start_schedule`** and the `schedule` library trigger, which are a polling loop over real
  time.
- **Files with nothing to state:** managers/filename.py, db/types.py, settings.py,
  utils/logger.py and main.py.
- QuestionManager.GetRandomQuestion: does not model the uniformity of `func.random()`. The
  random order is a choice `pick` among the eligible questions (every eligible question is
  reachable, and none other).
- AnswerManager.GetCorrectAnswer: returns the first correct answer in table order, because the
  query has no ORDER BY. When a question had several correct answers, the database may return
  another one. Ingestion keeps one correct answer per question, so this case does not arise
  for ingested data.
- OpenAiParser.FormatRowToDict: the result is a Dafny map, so the insertion order of the Python
  dictionary (what `json.dumps` shows the model) is not modelled.
- OpenAiParser.KeepParsed: the order of `raw_results` depends on which worker finishes first.
  The model keeps the order it is given.
- Strings.StripFacts: `str.strip` is modelled for the ASCII whitespace characters only (space,
  tab, line feed, vertical tab, form feed, carriage return and 0x1C to 0x1F). Python also strips
  non-ASCII whitespace such as 0x85 and 0xA0.
- Strings.UpperFacts: `str.upper` is modelled for ASCII letters only. Python also upper-cases
  other Unicode letters and may lengthen the text, as with "ß".
- DbUtils.GetQuestionByText: the query has no ORDER BY, and SQLite may answer it from the
  (text, explanation) index, so the question it returns need not be the first in rowid order.
  The model returns the first. Only whether a question is found affects the result of
  `add_question_and_answers`; the question itself appears only in a log line.
- ExcelParser.ProcessedRowOf: `_process_row` takes the answer letters as a parameter. The
  model fixes them to A to E, the value the only caller, `parse`, passes.
- ExcelParser.Str: a cell holding a number, date or boolean is given by its `str()` text and
  its truth value. The conversion itself is not modelled.
- Schema.Valid: an explanation is always a string; the nullable `explanation` column is never
  NULL for rows the parsers produce. Ids are unbounded integers, and SQLite's 64-bit limit is
  not modelled.

## Findings

| source | as written | input that shows it | evidently intended | confidence | as-written member | corrected member |
|---|---|---|---|---|---|---|
| src/mcq_bot/db/parsers/excel.py:74-77 | the re-raise formats `question.text[:50]`; `question` is a `QuestionType` dictionary, which has no attribute `text`, so the handler raises AttributeError. `parse` catches only NoCorrectAnswerException, so the error also loses its row number | `MissingOptionRow`: nine cells, correct letter "A", option A empty | NoCorrectAnswerException naming the first 50 characters of the question, then wrapped by `parse` with the row number | not executed; follows from attribute lookup on a Python dict | ExcelParser.ProcessRowAsWritten | ExcelParser.ProcessedRowOf |
| src/mcq_bot/db/parsers/openai.py:57 | `len(headers) >= idx` lets `idx == len(headers)` through, where `headers[idx]` raises IndexError | `ShortHeaders` (one cell) with `TwoCellRow` (two cells) | `idx < len(headers)`, giving the extra cell the key "Unnamed column 1" as the docstring promises | not executed; openpyxl gives rectangular rows, so a sheet may never produce a row longer than its header row | OpenAiParser.RowDictAsWritten | OpenAiParser.RowDict |

The discrepancies are exhibited by:

- `ExcelParser.AsWrittenRaisesAttributeError` and `ExcelParser.AsWrittenDiffersOnMissingOption`;
- `OpenAiParser.LongRowCounterexample` and `OpenAiParser.AsWrittenFailsOnLongRows`.

The corrected properties are `ExcelParser.CorrectedReportsNoCorrectAnswer`,
`ExcelParser.ProcessedRowOkIff`, `OpenAiParser.FormatRowToDict` and
`OpenAiParser.RowDictDistinctKeys`. The rest of the model uses the corrected definitions.
