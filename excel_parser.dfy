/** The strict spreadsheet parser (db/parsers/excel.py). A sheet is given as its rows,
    from the second row on (the first is the header), each a sequence of cell values.
    Column 0 holds the question number, 1 the question, 2 to 6 the options A to E,
    7 the letter of the correct option and 8 the explanation. */
module ExcelParser {
  import opened Outcomes
  import opened Strings
  import opened DbTypes
  import opened ParserUtils

  /** A cell's `value`: None for an empty cell, a string, or a value of another type
      (number, date, boolean) given by its `str()` rendering and its truth value. */
  datatype CellValue = Blank | Text(s: string) | Other(rendered: string, truthy: bool)

  type Row = seq<CellValue>

  /** `str(cell.value)`: an empty cell renders as "None". */
  function Str(v: CellValue): (r: string)
    ensures v.Blank? ==> r == "None"
    ensures v.Text? ==> r == v.s
  {
    match v
    case Blank => "None"
    case Text(s) => s
    case Other(rendered, _) => rendered
  }

  /** `bool(cell.value)`: None and the empty string are false. */
  predicate Truthy(v: CellValue) {
    match v
    case Blank => false
    case Text(s) => s != ""
    case Other(_, truthy) => truthy
  }

  /** `_extract_question`: the stripped text of column 1 and of column 8. */
  function ExtractQuestion(row: Row): (r: Result<QuestionType>)
    ensures |row| < 9 <==> r == Err(IndexError)
    ensures r.Ok? ==> r.value.text == Strip(Str(row[1])) && r.value.explanation == Strip(Str(row[8]))
  {
    if |row| < 9 then Err(IndexError)
    else Ok(QuestionType(Strip(Str(row[1])), Strip(Str(row[8]))))
  }

  /** An empty explanation cell becomes the explanation "None". */
  lemma BlankExplanationIsNone(row: Row)
    requires |row| >= 9 && row[8] == Blank
    ensures ExtractQuestion(row) == Ok(QuestionType(Strip(Str(row[1])), "None"))
  {
    assert Strip("None") == "None" by {
      assert StripLeft("None") == "None";
      assert StripRight("None") == "None";
    }
  }

  /** `str(row[7].value).upper().strip()`. */
  function CorrectLetter(row: Row): string
    requires |row| > 7
  {
    Strip(Upper(Str(row[7])))
  }

  /** The text of an option cell, stripped, or None when the cell is empty, false, or
      holds only whitespace (such a cell gives no option). */
  function OptionText(cell: CellValue): (r: Option<string>)
    ensures r.Some? ==> r.value != "" && r.value == Strip(Str(cell))
    ensures r.None? <==> !Truthy(cell) || Strip(Str(cell)) == ""
  {
    if !Truthy(cell) then None
    else
      var val := Strip(Str(cell));
      if val == "" then None else Some(val)
  }

  /** `val[:1].upper() + val[1:]` for the text of an option cell. */
  function Formatted(text: Option<string>): (r: Option<string>)
    ensures r.Some? <==> text.Some?
    ensures r.Some? ==> r.value == UpperFirst(text.value)
  {
    match text
    case None => None
    case Some(val) => Some(UpperFirst(val))
  }

  /** The formatted texts of the five option cells, None for a cell that gives no option. */
  function OptionTexts(row: Row): (r: seq<Option<string>>)
    requires |row| >= 7
    ensures |r| == |ValidAnswerLetters|
  {
    seq(5, k requires 0 <= k < 5 => Formatted(OptionText(row[2 + k])))
  }

  /** Is `letter` accepted as the correct letter: a single character from A to E. */
  predicate IsValidLetter(letter: string) {
    |letter| == 1 && 'A' <= letter[0] <= 'E'
  }

  /** The offset of a valid letter: A is 0, ..., E is 4. */
  function LetterIndex(letter: string): (k: nat)
    requires IsValidLetter(letter)
    ensures k < |ValidAnswerLetters|
  {
    letter[0] as int - 'A' as int
  }

  /** The check of `_process_row`, `not correct_letter or correct_letter not in
      VALID_ANSWER_LETTERS`, refuses exactly the letters `IsValidLetter` rejects, and a
      valid letter is the one listed at its offset. */
  lemma ValidLetterIffListed(letter: string)
    ensures IsValidLetter(letter) <==> letter != "" && letter in ValidAnswerLetters
    ensures IsValidLetter(letter) ==> ValidAnswerLetters[LetterIndex(letter)] == letter
  {
    if IsValidLetter(letter) {
      assert letter == [letter[0]];
      assert ValidAnswerLetters[LetterIndex(letter)] == [letter[0]];
    }
    if letter in ValidAnswerLetters {
      var k :| 0 <= k < 5 && ValidAnswerLetters[k] == letter;
      assert |ValidAnswerLetters[k]| == 1 && 'A' <= ValidAnswerLetters[k][0] <= 'E';
    }
  }

  /** A valid letter sits at exactly one offset, so comparing the letter at offset `k`
      with it is comparing `k` with its offset. */
  lemma LetterAtIndexOnly(letter: string, k: nat)
    requires IsValidLetter(letter) && k < |ValidAnswerLetters|
    ensures ValidAnswerLetters[k] == letter <==> k == LetterIndex(letter)
  {
    ValidLetterIffListed(letter);
    if ValidAnswerLetters[k] == letter {
      assert ValidAnswerLetters[k][0] == letter[0];
    }
  }

  /** The option that the formatted text at offset `k` gives, when the correct letter sits
      at offset `c`: none for an empty cell, otherwise one keyed `k` with that text,
      correct exactly when `k` is `c`. */
  function OptionAt(texts: seq<Option<string>>, c: nat, k: nat): (r: seq<AnswerType>)
    requires k < |texts|
    ensures |r| <= 1
    ensures texts[k].None? <==> r == []
    ensures |r| == 1 ==> r[0] == AnswerType(k == c, k, texts[k].value)
  {
    match texts[k]
    case None => []
    case Some(val) => [AnswerType(k == c, k, val)]
  }

  /** The options the loop of `_process_row` has collected after the first `n` of the
      option cells. */
  function Options(texts: seq<Option<string>>, c: nat, n: nat): seq<AnswerType>
    requires n <= |texts|
  {
    if n == 0 then [] else Options(texts, c, n - 1) + OptionAt(texts, c, n - 1)
  }

  /** One option for a key means: it comes from a non-empty cell at that offset, its text
      is the cell's stripped text with only the first character upper-cased, and it is
      correct exactly when its offset is that of the correct letter. */
  ghost predicate OptionOfText(texts: seq<Option<string>>, c: nat, a: AnswerType) {
    0 <= a.key < |texts| && texts[a.key].Some?
    && a.text == texts[a.key].value
    && a.isCorrect == (a.key == c)
  }

  /** Every collected option comes from its text as `OptionOfText` says; keys are strictly
      increasing and below `n`, so there are at most `n` options. */
  lemma {:induction false} OptionsShape(texts: seq<Option<string>>, c: nat, n: nat)
    requires n <= |texts|
    ensures |Options(texts, c, n)| <= n
    ensures forall i :: 0 <= i < |Options(texts, c, n)| ==>
              Options(texts, c, n)[i].key < n && OptionOfText(texts, c, Options(texts, c, n)[i])
    ensures forall i, j :: 0 <= i < j < |Options(texts, c, n)| ==>
              Options(texts, c, n)[i].key < Options(texts, c, n)[j].key
  {
    if n > 0 {
      OptionsShape(texts, c, n - 1);
      var prev := Options(texts, c, n - 1);
      var last := OptionAt(texts, c, n - 1);
      var r := Options(texts, c, n);
      assert r == prev + last;
      assert forall i :: 0 <= i < |prev| ==> r[i] == prev[i];
      assert forall i :: |prev| <= i < |r| ==> r[i] == last[0];
    }
  }

  /** Every non-empty option cell among the first `n` gives its option. */
  lemma {:induction false} OptionsComplete(texts: seq<Option<string>>, c: nat, n: nat, k: nat)
    requires n <= |texts| && k < n
    requires texts[k].Some?
    ensures AnswerType(k == c, k, texts[k].value) in Options(texts, c, n)
  {
    var prev := Options(texts, c, n - 1);
    var last := OptionAt(texts, c, n - 1);
    assert Options(texts, c, n) == prev + last;
    if k < n - 1 {
      OptionsComplete(texts, c, n - 1, k);
    }
  }

  /** Only the cell at offset `c` can give a correct option, so the options carry exactly
      one correct answer when that cell is among the first `n` and non-empty, and none
      otherwise. */
  lemma {:induction false} OptionsCorrectCount(texts: seq<Option<string>>, c: nat, n: nat)
    requires n <= |texts|
    ensures |CorrectAnswers(Options(texts, c, n))| == if c < n && texts[c].Some? then 1 else 0
  {
    if n > 0 {
      OptionsCorrectCount(texts, c, n - 1);
      var prev := Options(texts, c, n - 1);
      var last := OptionAt(texts, c, n - 1);
      assert Options(texts, c, n) == prev + last;
      CorrectAnswersAppend(prev, last);
      LastOptionCorrectCount(texts, c, n - 1);
    }
  }

  /** The option at offset `k` is correct exactly when `k` is `c` and its cell is
      non-empty. */
  lemma LastOptionCorrectCount(texts: seq<Option<string>>, c: nat, k: nat)
    requires k < |texts|
    ensures |CorrectAnswers(OptionAt(texts, c, k))| == if k == c && texts[k].Some? then 1 else 0
  {
    var last := OptionAt(texts, c, k);
    if texts[k].Some? {
      assert last == [AnswerType(k == c, k, texts[k].value)];
      assert CorrectAnswers(last) == (if k == c then last else []) + CorrectAnswers([]);
    } else {
      assert last == [];
    }
  }

  /** The options `_process_row` collects from a row whose correct letter is valid; the one
      at the offset of that letter is the only correct one, so there is exactly one
      correct option when its cell is non-empty and none otherwise. */
  function RowAnswers(row: Row): seq<AnswerType>
    requires |row| >= 9 && IsValidLetter(CorrectLetter(row))
  {
    Options(OptionTexts(row), LetterIndex(CorrectLetter(row)), 5)
  }

  /** Exactly one correct option when the cell of the correct letter is non-empty, and
      none otherwise. */
  lemma RowAnswersCorrectCount(row: Row)
    requires |row| >= 9 && IsValidLetter(CorrectLetter(row))
    ensures |CorrectAnswers(RowAnswers(row))|
         == if OptionText(row[2 + LetterIndex(CorrectLetter(row))]).Some? then 1 else 0
  {
    OptionsCorrectCount(OptionTexts(row), LetterIndex(CorrectLetter(row)), 5);
  }

  /** `text[:50]`: the first 50 characters, or all of a shorter text. */
  function QuestionPrefix(text: string): (r: string)
    ensures |r| <= 50 && r <= text
    ensures |text| <= 50 ==> r == text
    ensures |text| > 50 ==> |r| == 50
  {
    if |text| <= 50 then text else text[..50]
  }

  /** What `_process_row` returns for a row, with the re-raise of a wrong correct-answer
      count carrying the first 50 characters of the question text. */
  function ProcessedRowOf(row: Row): Result<ProcessedRow>
  {
    match ExtractQuestion(row)
    case Err(e) => Err(e)
    case Ok(question) =>
      var letter := CorrectLetter(row);
      if !IsValidLetter(letter) then Err(NoCorrectAnswer(InvalidLetter(letter)))
      else
        var answers := RowAnswers(row);
        match ValidateOnlyOneCorrectAnswer(answers)
        case Fail(e) =>
          Err(NoCorrectAnswer(InQuestion(QuestionPrefix(question.text), e.reason)))
        case Pass => Ok(ProcessedRow(question, answers))
  }

  /** A row is accepted exactly when it has all nine columns, its correct letter is one of
      A to E, and the option cell of that letter is non-empty; the row then carries
      exactly one correct option. */
  lemma ProcessedRowOkIff(row: Row)
    ensures ProcessedRowOf(row).Ok? <==>
              |row| >= 9 && IsValidLetter(CorrectLetter(row))
              && OptionText(row[2 + LetterIndex(CorrectLetter(row))]).Some?
    ensures ProcessedRowOf(row).Ok? ==> ExactlyOneCorrect(ProcessedRowOf(row).value.answers)
  {
    if |row| >= 9 && IsValidLetter(CorrectLetter(row)) {
      RowAnswersCorrectCount(row);
    }
    if ProcessedRowOf(row).Ok? {
      ValidatePassesIffExactlyOne(ProcessedRowOf(row).value.answers);
    }
  }

  /** The refusals of `_process_row`: a short row raises IndexError, a correct letter
      other than A to E is reported as such, and an accepted row holds the extracted
      question and the options collected from the row. */
  lemma ProcessedRowCases(row: Row)
    ensures |row| < 9 ==> ProcessedRowOf(row) == Err(IndexError)
    ensures |row| >= 9 && !IsValidLetter(CorrectLetter(row)) ==>
              ProcessedRowOf(row) == Err(NoCorrectAnswer(InvalidLetter(CorrectLetter(row))))
    ensures ProcessedRowOf(row).Ok? ==>
              |row| >= 9 && IsValidLetter(CorrectLetter(row))
              && ProcessedRowOf(row) == Ok(ProcessedRow(ExtractQuestion(row).value, RowAnswers(row)))
  {
  }

  /** The options collected from a row: at most five, keys strictly increasing among
      0..4, each from the non-empty cell at column 2 + key with its first character
      upper-cased, and correct exactly when its letter is the correct letter. */
  lemma RowAnswersShape(row: Row)
    requires |row| >= 9 && IsValidLetter(CorrectLetter(row))
    ensures var answers := RowAnswers(row);
      && |answers| <= 5
      && (forall i, j :: 0 <= i < j < |answers| ==> answers[i].key < answers[j].key)
      && forall a :: a in answers ==>
           0 <= a.key < 5 && OptionText(row[2 + a.key]).Some?
           && a.text == UpperFirst(OptionText(row[2 + a.key]).value)
           && a.isCorrect == (ValidAnswerLetters[a.key] == CorrectLetter(row))
  {
    var letter := CorrectLetter(row);
    var texts := OptionTexts(row);
    var answers := RowAnswers(row);
    OptionsShape(texts, LetterIndex(letter), 5);
    forall a | a in answers
      ensures 0 <= a.key < 5 && OptionText(row[2 + a.key]).Some?
           && a.text == UpperFirst(OptionText(row[2 + a.key]).value)
           && a.isCorrect == (ValidAnswerLetters[a.key] == letter)
    {
      assert OptionOfText(texts, LetterIndex(letter), a);
      LetterAtIndexOnly(letter, a.key);
    }
  }

  /** The loop of `_process_row` over the five option cells: an empty cell is skipped,
      any other gives an option keyed by its offset. */
  method CollectAnswers(row: Row, letter: string) returns (answers: seq<AnswerType>)
    requires |row| >= 9 && IsValidLetter(letter) && letter == CorrectLetter(row)
    ensures answers == RowAnswers(row)
  {
    ghost var texts := OptionTexts(row);
    ghost var c := LetterIndex(letter);
    answers := [];
    for idx := 0 to 5
      invariant answers == Options(texts, c, idx)
    {
      var val := OptionText(row[2 + idx]);
      assert Options(texts, c, idx + 1) == answers + OptionAt(texts, c, idx);
      if val.None? {
        continue;
      }
      var formatted := UpperFirst(val.value);
      LetterAtIndexOnly(letter, idx);
      answers := answers + [AnswerType(ValidAnswerLetters[idx] == letter, idx, formatted)];
    }
    assert RowAnswers(row) == Options(texts, c, 5);
  }

  /** `_process_row`: the question, the correct letter, the options, then the check that
      exactly one of them is correct. */
  method ProcessRow(row: Row) returns (r: Result<ProcessedRow>)
    ensures r == ProcessedRowOf(row)
  {
    var q := ExtractQuestion(row);
    if q.Err? {
      return Err(q.error);
    }
    var question := q.value;
    var letter := CorrectLetter(row);
    ValidLetterIffListed(letter);
    if letter == "" || letter !in ValidAnswerLetters {
      return Err(NoCorrectAnswer(InvalidLetter(letter)));
    }
    var answers := CollectAnswers(row, letter);
    var check := ValidateOnlyOneCorrectAnswer(answers);
    if check.Fail? {
      return Err(NoCorrectAnswer(InQuestion(QuestionPrefix(question.text), check.error.reason)));
    }
    return Ok(ProcessedRow(question, answers));
  }

  /** `_process_row` as written: the re-raise reads `question.text` on a dictionary,
      which raises AttributeError, so a wrong correct-answer count surfaces as that. */
  function ProcessRowAsWritten(row: Row): (r: Result<ProcessedRow>)
  {
    match ExtractQuestion(row)
    case Err(e) => Err(e)
    case Ok(question) =>
      var letter := CorrectLetter(row);
      if !IsValidLetter(letter) then Err(NoCorrectAnswer(InvalidLetter(letter)))
      else
        var answers := RowAnswers(row);
        match ValidateOnlyOneCorrectAnswer(answers)
        case Fail(_) => Err(AttributeError)
        case Pass => Ok(ProcessedRow(question, answers))
  }

  /** The code as written and the corrected model differ exactly on rows whose correct
      letter is valid but whose option cell for it is empty: there the code raises
      AttributeError instead of NoCorrectAnswerException. */
  lemma AsWrittenDiffersOnMissingOption(row: Row)
    ensures ProcessRowAsWritten(row) != ProcessedRowOf(row) <==>
              |row| >= 9 && IsValidLetter(CorrectLetter(row))
              && OptionText(row[2 + LetterIndex(CorrectLetter(row))]).None?
    ensures ProcessRowAsWritten(row) != ProcessedRowOf(row) ==>
              ProcessRowAsWritten(row) == Err(AttributeError)
              && ProcessedRowOf(row).Err? && ProcessedRowOf(row).error.NoCorrectAnswer?
  {
    ProcessedRowOkIff(row);
  }

  /** A row whose correct letter is valid but whose option cell for that letter is empty
      is refused with a count of 0 correct answers, under its question's prefix. */
  lemma MissingOptionRefused(row: Row)
    requires |row| >= 9 && IsValidLetter(CorrectLetter(row))
    requires OptionText(row[2 + LetterIndex(CorrectLetter(row))]).None?
    ensures ProcessedRowOf(row)
         == Err(NoCorrectAnswer(InQuestion(QuestionPrefix(Strip(Str(row[1]))), CorrectCount(0))))
  {
    RowAnswersCorrectCount(row);
  }

  /** A row whose correct letter is "A" while the cell of option A is empty. */
  const MissingOptionRow: Row :=
    [Text("1"), Text("Q"), Blank, Text("b"), Blank, Blank, Blank, Text("A"), Text("E")]

  /** A one-character string that is not whitespace is its own stripped form. */
  lemma StripSingle(c: char)
    requires !IsSpace(c)
    ensures Strip([c]) == [c]
  {
    assert StripLeft([c]) == [c];
    assert StripRight([c]) == [c];
  }

  /** The cells of the sample row. */
  lemma MissingOptionRowCells()
    ensures |MissingOptionRow| == 9 && MissingOptionRow[1] == Text("Q")
    ensures MissingOptionRow[2] == Blank && MissingOptionRow[7] == Text("A")
    ensures MissingOptionRow[8] == Text("E")
  {
  }

  /** The sample row has the correct letter "A", at offset 0, whose option cell is empty. */
  lemma MissingOptionRowLetter()
    ensures CorrectLetter(MissingOptionRow) == "A"
    ensures IsValidLetter(CorrectLetter(MissingOptionRow))
    ensures LetterIndex(CorrectLetter(MissingOptionRow)) == 0
    ensures OptionText(MissingOptionRow[2 + LetterIndex(CorrectLetter(MissingOptionRow))]).None?
  {
    MissingOptionRowCells();
    assert Upper("A") == [UpperChar('A')] + Upper([]);
    StripSingle('A');
    assert CorrectLetter(MissingOptionRow) == "A";
    assert LetterIndex("A") == 0;
    assert !Truthy(MissingOptionRow[2]);
  }

  /** The sample row has the question "Q" and the explanation "E". */
  lemma MissingOptionRowQuestion()
    ensures ExtractQuestion(MissingOptionRow) == Ok(QuestionType("Q", "E"))
  {
    MissingOptionRowCells();
    StripSingle('Q');
    StripSingle('E');
  }

  /** As written, the sample row raises AttributeError. */
  lemma AsWrittenRaisesAttributeError()
    ensures ProcessRowAsWritten(MissingOptionRow) == Err(AttributeError)
  {
    MissingOptionRowLetter();
    AsWrittenDiffersOnMissingOption(MissingOptionRow);
  }

  /** Corrected, the sample row is refused as a question without a correct answer: none
      of its options is correct. */
  lemma CorrectedReportsNoCorrectAnswer()
    ensures ProcessedRowOf(MissingOptionRow) == Err(NoCorrectAnswer(InQuestion("Q", CorrectCount(0))))
  {
    MissingOptionRowLetter();
    MissingOptionRowQuestion();
    MissingOptionRefused(MissingOptionRow);
  }

  /** The rows that hold a question: long enough to have column 1, and not empty there. */
  function QuestionRows(rows: seq<Row>): seq<Row>
  {
    if rows == [] then []
    else QuestionRows(rows[..|rows| - 1])
         + (var x := rows[|rows| - 1]; if |x| >= 2 && x[1] != Blank then [x] else [])
  }

  /** What `parse` makes of the row at position `idx` of the sheet body, handing it to
      `process` (`_process_row`) when it has a question: None for a row whose column 1 is
      empty, the processed row otherwise, and a refusal re-raised with the sheet row
      number (the header is row 1, so position `idx` is row `idx + 2`). */
  function RowStep(process: Row -> Result<ProcessedRow>, r: Row, idx: nat)
    : (res: Result<Option<ProcessedRow>>)
    ensures |r| < 2 ==> res == Err(IndexError)
    ensures |r| >= 2 && r[1] == Blank ==> res == Ok(None)
    ensures |r| >= 2 && r[1] != Blank && process(r).Ok? ==> res == Ok(Some(process(r).value))
    ensures |r| >= 2 && r[1] != Blank && process(r).Err? && process(r).error.NoCorrectAnswer? ==>
              res == Err(NoCorrectAnswer(InRow(idx + 2, process(r).error.reason)))
  {
    if |r| < 2 then Err(IndexError)
    else if r[1] == Blank then Ok(None)
    else
      match process(r)
      case Err(e) =>
        if e.NoCorrectAnswer? then Err(NoCorrectAnswer(InRow(idx + 2, e.reason))) else Err(e)
      case Ok(p) => Ok(Some(p))
  }

  /** What `parse` returns after the first `n` rows: the rows are taken in order, the
      skipped ones leave no trace, and the first refusal ends the parse. */
  function ParseUpTo(process: Row -> Result<ProcessedRow>, rows: seq<Row>, n: nat)
    : Result<seq<ProcessedRow>>
    requires n <= |rows|
  {
    if n == 0 then Ok([])
    else
      match ParseUpTo(process, rows, n - 1)
      case Err(e) => Err(e)
      case Ok(done) =>
        match RowStep(process, rows[n - 1], n - 1)
        case Err(e) => Err(e)
        case Ok(None) => Ok(done)
        case Ok(Some(p)) => Ok(done + [p])
  }

  /** Appending leaves the earlier positions as they were. */
  lemma AppendIndex<T>(a: seq<T>, x: T, i: nat)
    requires i < |a|
    ensures (a + [x])[i] == a[i]
  {
  }

  /** `parse` succeeds exactly when every row has a column 1 and every row with a question
      is accepted; it then returns the processed question rows, in their order. */
  lemma {:induction false} ParseKeepsQuestionRows(process: Row -> Result<ProcessedRow>, rows: seq<Row>, n: nat)
    requires n <= |rows|
    ensures ParseUpTo(process, rows, n).Ok? <==>
              forall i :: 0 <= i < n ==>
                |rows[i]| >= 2 && (rows[i][1] != Blank ==> process(rows[i]).Ok?)
    ensures ParseUpTo(process, rows, n).Ok? ==>
              var kept := QuestionRows(rows[..n]);
              var out := ParseUpTo(process, rows, n).value;
              |out| == |kept| && forall i :: 0 <= i < |kept| ==> process(kept[i]) == Ok(out[i])
  {
    if n > 0 {
      ParseKeepsQuestionRows(process, rows, n - 1);
      var r := rows[n - 1];
      assert rows[..n] == rows[..n - 1] + [r];
      assert rows[..n][..n - 1] == rows[..n - 1];
      var prevKept := QuestionRows(rows[..n - 1]);
      var kept := QuestionRows(rows[..n]);
      assert kept == prevKept + (if |r| >= 2 && r[1] != Blank then [r] else []);
      if ParseUpTo(process, rows, n).Ok? {
        var prevOut := ParseUpTo(process, rows, n - 1).value;
        var out := ParseUpTo(process, rows, n).value;
        if r[1] == Blank {
          assert out == prevOut && kept == prevKept;
        } else {
          assert out == prevOut + [process(r).value] && kept == prevKept + [r];
          forall i | 0 <= i < |kept| ensures process(kept[i]) == Ok(out[i]) {
            if i < |prevKept| {
              AppendIndex(prevKept, r, i);
              AppendIndex(prevOut, process(r).value, i);
            }
          }
        }
      }
    }
  }

  /** Once a row is refused, the later rows are not looked at. */
  lemma {:induction false} ParseStopsAtError(process: Row -> Result<ProcessedRow>, rows: seq<Row>, n: nat, m: nat)
    requires n <= m <= |rows| && ParseUpTo(process, rows, n).Err?
    ensures ParseUpTo(process, rows, m) == ParseUpTo(process, rows, n)
    decreases m - n
  {
    if n < m {
      ParseStopsAtError(process, rows, n, m - 1);
    }
  }

  /** The body of the loop of `parse` for one row: the skip test and `_process_row`
      inside the `try` that re-raises a refusal with the sheet row number. */
  method ParseRow(row: Row, idx: nat) returns (res: Result<Option<ProcessedRow>>)
    ensures res == RowStep(ProcessedRowOf, row, idx)
  {
    if |row| < 2 {
      return Err(IndexError);
    }
    if row[1] == Blank {
      return Ok(None);
    }
    var p := ProcessRow(row);
    if p.Err? {
      if p.error.NoCorrectAnswer? {
        return Err(NoCorrectAnswer(InRow(idx + 2, p.error.reason)));
      }
      return Err(p.error);
    }
    return Ok(Some(p.value));
  }

  /** One more row: a refusal is the result of the whole parse, a skipped row leaves the
      result as it was, and an accepted row is appended to it. */
  lemma ParseAdvance(process: Row -> Result<ProcessedRow>, rows: seq<Row>, idx: nat,
                     processed: seq<ProcessedRow>)
    requires idx < |rows| && ParseUpTo(process, rows, idx) == Ok(processed)
    ensures var step := RowStep(process, rows[idx], idx);
      && (step.Err? ==> ParseUpTo(process, rows, |rows|) == Err(step.error))
      && (step == Ok(None) ==> ParseUpTo(process, rows, idx + 1) == Ok(processed))
      && (step.Ok? && step.value.Some? ==>
            ParseUpTo(process, rows, idx + 1) == Ok(processed + [step.value.value]))
  {
    if RowStep(process, rows[idx], idx).Err? {
      ParseStopsAtError(process, rows, idx + 1, |rows|);
    }
  }

  /** `parse`: loops over the rows below the header, skipping those without a question. */
  method Parse(rows: seq<Row>) returns (r: Result<seq<ProcessedRow>>)
    ensures r == ParseUpTo(ProcessedRowOf, rows, |rows|)
  {
    var processed: seq<ProcessedRow> := [];
    for idx := 0 to |rows|
      invariant ParseUpTo(ProcessedRowOf, rows, idx) == Ok(processed)
    {
      var step := ParseRow(rows[idx], idx);
      ParseAdvance(ProcessedRowOf, rows, idx, processed);
      if step.Err? {
        return Err(step.error);
      }
      if step.value.Some? {
        processed := processed + [step.value.value];
      }
    }
    return Ok(processed);
  }
}
