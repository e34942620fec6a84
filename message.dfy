/** Message helpers (utils/message.py): the sender check, the command-argument splitter and
    the integer part of the stats. Dates are day numbers. */
module Message {
  import opened Outcomes
  import opened Strings
  import opened Schema
  import opened UserManager
  import opened QuestionManager

  /** `get_user_id`: the sender id when truthy, and an error for a missing or zero id. */
  function GetUserId(senderId: Option<int>): (r: Result<int>)
    ensures r.Ok? <==> senderId.Some? && senderId.value != 0
    ensures r.Ok? ==> r.value == senderId.value
    ensures r.Err? ==> r.error == NoSender
  {
    if senderId.Some? && senderId.value != 0 then Ok(senderId.value) else Err(NoSender)
  }

  /** `extract_command_content`: everything after the first space, or None. */
  function ExtractCommandContent(text: string): (r: Option<string>)
  {
    var splits := SplitOnce(text, ' ');
    if |splits| < 2 then None else Some(splits[1])
  }

  /** None exactly when the text has no space. */
  lemma ExtractNoneIff(text: string)
    ensures ExtractCommandContent(text).None? <==> ' ' !in text
  {
  }

  /** Otherwise the text is a head without spaces, one space, and the result. */
  lemma ExtractSplits(text: string)
    requires ' ' in text
    ensures ExtractCommandContent(text).Some?
    ensures var r := ExtractCommandContent(text).value;
      |r| < |text| && text[..|text| - |r| - 1] + " " + r == text && ' ' !in text[..|text| - |r| - 1]
  {
    var splits := SplitOnce(text, ' ');
    var r := splits[1];
    assert splits[0] + [' '] + r == text;
    assert text[..|text| - |r| - 1] == splits[0];
  }

  /** A head without spaces, a space and any rest, itself spaces included or empty, give
      back exactly that rest. */
  lemma ExtractAfterFirstSpace(head: string, rest: string)
    requires ' ' !in head
    ensures ExtractCommandContent(head + " " + rest) == Some(rest)
  {
    var text := head + " " + rest;
    assert text[|head|] == ' ';
    ExtractSplits(text);
    var r := ExtractCommandContent(text).value;
    var h := text[..|text| - |r| - 1];
    assert text[|h|] == ' ';
    assert forall k :: 0 <= k < |head| ==> text[k] == head[k];
    assert forall k :: 0 <= k < |h| ==> text[k] == h[k];
    assert |h| == |head|;
    assert r == text[|head| + 1..];
    assert text[|head| + 1..] == rest;
  }

  /** A command with arguments, as the splitter's test writes it. */
  const StartCommand: string := "/start" + " " + "my extracted text"

  /** Its arguments come back with their inner spaces. */
  lemma ExtractWithArguments()
    ensures ExtractCommandContent(StartCommand) == Some("my extracted text")
  {
    ExtractAfterFirstSpace("/start", "my extracted text");
  }

  /** The integer stats of a user. */
  datatype Stats = Stats(total: int, attempted: int, correct: int, daysTillExam: int)

  /** `get_stats(user_id)` on day `today`, given the user's attempted and correct counts:
      the question count (ValueError for an empty bank) is taken before the user (ValueError
      for an unknown one), and the days till the exam are the exam day minus today. */
  function GetStats(st: Store, userId: int, attempted: int, correct: int, today: int): (r: Result<Stats>)
    ensures r.Err? <==> st.questions == [] || !HasUser(st.users, userId)
    ensures r.Err? ==> r.error == ValueError
    ensures r.Ok? ==> r.value == Stats(|st.questions|, attempted, correct,
                                      GetUser(st, userId).value.examDt - today)
  {
    CountAll(st, None);
    match GetQuestionCount(st, None)
    case Err(e) => Err(e)
    case Ok(total) =>
      match GetUser(st, userId)
      case Err(e) => Err(e)
      case Ok(user) => Ok(Stats(total, attempted, correct, user.examDt - today))
  }

  /** `remaining` of `format_stats_message`: the questions not yet attempted; the message
      divides by the total, the attempted count and the days till the exam, so each being 0
      raises ZeroDivisionError. */
  function Remaining(stats: Stats): (r: Result<int>)
    ensures r.Ok? <==> stats.total != 0 && stats.attempted != 0 && stats.daysTillExam != 0
    ensures r.Err? ==> r.error == ZeroDivisionError
    ensures r.Ok? ==> r.value + stats.attempted == stats.total
  {
    if stats.total == 0 || stats.attempted == 0 then Err(ZeroDivisionError)
    else
      var remaining := stats.total - stats.attempted;
      if stats.daysTillExam == 0 then Err(ZeroDivisionError) else Ok(remaining)
  }

  /** The stats message can be formed exactly for a known user of a non-empty bank who has
      attempted something and whose exam is not today; the remaining count is the bank's
      size minus the attempts. */
  lemma StatsMessageFormed(st: Store, userId: int, attempted: int, correct: int, today: int)
    ensures var s := GetStats(st, userId, attempted, correct, today);
      (s.Ok? && Remaining(s.value).Ok?)
        <==> st.questions != [] && HasUser(st.users, userId) && attempted != 0
             && GetUser(st, userId).value.examDt != today
    ensures var s := GetStats(st, userId, attempted, correct, today);
      s.Ok? && Remaining(s.value).Ok? ==> Remaining(s.value).value == |st.questions| - attempted
  {
  }
}
