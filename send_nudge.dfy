/** The daily nudge (senders/send_nudge.py): skip a user who met the target, otherwise one
    message with a button. Dates are day numbers; the message is returned, not sent. */
module SendNudge {
  import opened Outcomes
  import opened Strings
  import opened Schema
  import opened UserManager

  /** The message sent: the chat, its text, and the data of its "I'm ready!" button. */
  datatype Nudge = Nudge(chat: int, text: string, buttonData: int)

  /** The text for a user who has done nothing today. */
  function ZeroDoneText(days: int, target: int): string
  {
    IntToString(days) + " days to your exam and you haven't done any questions today, time to do at least "
    + IntToString(target) + " questions today!"
  }

  /** The text for a user who has done some but not enough. */
  function ShortfallText(attempted: int, shortfall: int): string
  {
    "You've done " + IntToString(attempted) + " questions today, " + IntToString(shortfall) + " more to go!"
  }

  /** The choice of message: none once the target is met, the zero-done text when nothing
      was done, and the shortfall text otherwise. */
  function NudgeText(attempted: int, target: int, days: int): Option<string>
  {
    if attempted >= target then None
    else if attempted == 0 then Some(ZeroDoneText(days, target))
    else Some(ShortfallText(attempted, target - attempted))
  }

  /** No message exactly when the target is met; with nothing done the message gives the
      days to the exam and the target; otherwise it gives the count done and a shortfall of
      at least one. */
  lemma NudgeTextChoice(attempted: int, target: int, days: int)
    ensures NudgeText(attempted, target, days).None? <==> attempted >= target
    ensures attempted == 0 < target ==> NudgeText(attempted, target, days) == Some(ZeroDoneText(days, target))
    ensures 0 != attempted < target ==>
              target - attempted >= 1
              && NudgeText(attempted, target, days) == Some(ShortfallText(attempted, target - attempted))
  {
  }

  /** The two kinds of message never coincide: one starts with the day count, the other
      with a letter. */
  lemma NudgeTextsDiffer(days: int, target: int, attempted: int, shortfall: int)
    ensures ZeroDoneText(days, target) != ShortfallText(attempted, shortfall)
  {
    var z, s := ZeroDoneText(days, target), ShortfallText(attempted, shortfall);
    assert s[0] == 'Y';
    if days >= 0 {
      assert z[0] == NatToString(days)[0];
    } else {
      assert z[0] == '-';
    }
  }

  /** `send_nudge(user_id)` on day `today`, given the user's attempts today and daily
      target, and whether the transport delivers: the user is looked up before the
      decision (ValueError when unknown), and a failed delivery raises. */
  function Send(st: Store, userId: int, attempted: int, target: int, today: int, delivered: bool)
    : Result<Option<Nudge>>
  {
    match GetUser(st, userId)
    case Err(e) => Err(e)
    case Ok(user) =>
      match NudgeText(attempted, target, user.examDt - today)
      case None => Ok(None)
      case Some(text) => if delivered then Ok(Some(Nudge(userId, text, userId))) else Err(DispatchFailure)
  }

  /** A known user below target gets exactly one message, to their chat and with their id
      as the button data, whose text is chosen from the days to the exam; a user at or
      above target gets none; an unknown user or a failed delivery is an error. */
  lemma SendFacts(st: Store, userId: int, attempted: int, target: int, today: int, delivered: bool)
    ensures var r := Send(st, userId, attempted, target, today, delivered);
      && (r == Ok(None) <==> HasUser(st.users, userId) && attempted >= target)
      && (r.Err? <==> !HasUser(st.users, userId) || (attempted < target && !delivered))
      && (!HasUser(st.users, userId) ==> r == Err(ValueError))
      && (r.Ok? && r.value.Some? ==>
            r.value.value.chat == userId && r.value.value.buttonData == userId
            && Some(r.value.value.text)
               == NudgeText(attempted, target, GetUser(st, userId).value.examDt - today))
  {
    NudgeTextChoice(attempted, target, 0);
    if HasUser(st.users, userId) {
      NudgeTextChoice(attempted, target, GetUser(st, userId).value.examDt - today);
    }
  }
}
