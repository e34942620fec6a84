/** Option and Result wrappers, and the exceptions the bot's core can raise. */
module Outcomes {

  datatype Option<+T> = None | Some(value: T)

  /** Why a row was refused with `NoCorrectAnswerException` (the message chain of db/db_types.py). */
  datatype NoCorrectReason =
    /** The correct-answer column does not hold one of the letters A to E. */
    | InvalidLetter(letter: string)
    /** `validate_only_one_correct_answer` counted this many correct answers (not 1). */
    | CorrectCount(count: nat)
    /** Re-raised while processing the question whose text starts with `prefix`. */
    | InQuestion(prefix: string, cause: NoCorrectReason)
    /** Re-raised by the spreadsheet parser for the sheet row with this (1-based) number. */
    | InRow(rowNumber: nat, cause: NoCorrectReason)

  /** The exceptions of the modelled code, as values. */
  datatype Error =
    | NoCorrectAnswer(reason: NoCorrectReason)
    | IndexError
    | AttributeError
    | IntegrityError
    | ValueError
    | ZeroDivisionError
    /** `get_user_id` found no sender in the message. */
    | NoSender
    /** The chat transport failed to deliver a message. */
    | DispatchFailure

  datatype Result<+T> = Ok(value: T) | Err(error: Error)

  /** A Result without a value, for operations that return None in the source. */
  datatype Outcome = Pass | Fail(error: Error)
}
