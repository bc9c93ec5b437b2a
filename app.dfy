/** The chat bot's process-wide session record and `process_message`, which updates it
    in place. */
module App {
  import opened PyStr
  import opened Chat

  /** The module-global `user_state`: one session shared by every request. */
  class ChatBot {
    var step: Option<string>
    var data: map<string, string>
    /** Every call made to the mail and sheet collaborators, in order, whether or not
        it went through. */
    ghost var calls: seq<Call>

    ghost predicate Valid()
      reads this
    {
      State(step, data).Valid()
    }

    /** `user_state = {"step": None, "data": {}}` at start-up. */
    constructor ()
      ensures State(step, data) == Initial() && calls == []
      ensures Valid()
    {
      step := None;
      data := map[];
      calls := [];
    }

    /** `process_message(message)`. `emailFails` and `sheetFails` say whether
        `send_gmail` or `save_to_sheet` raises if called. */
    method ProcessMessage(message: string, emailFails: bool, sheetFails: bool) returns (outcome: Outcome)
      modifies this
      ensures var r := Turn(old(State(step, data)), message, emailFails, sheetFails);
        State(step, data) == r.next && outcome == r.outcome && calls == old(calls) + CallLog(r.call)
      ensures old(Valid()) ==> Valid()
    {
      var msg := Normalize(message);

      if step.None? {
        step := Some(AskService);
        return Replied(Welcome);
      }

      if step == Some(AskService) {
        if Contains(msg, "yes") {
          step := Some(AskEmergency);
          return Replied(AskUrgency);
        } else {
          step := None;
          return Replied(ServiceDeclined);
        }
      }

      if step == Some(AskEmergency) {
        if Contains(msg, "emergency") {
          step := Some(EmergencyDetails);
          return Replied(EmergencyPrompt);
        } else if Contains(msg, "normal") {
          step := Some(NormalDetails);
          return Replied(NormalPrompt);
        } else {
          return Replied(UrgencyReprompt);
        }
      }

      if step == Some(EmergencyDetails) {
        data := data[Info := message];
        calls := calls + [SendMail(EmergencySubject, message)];
        // A failing send is caught and printed; the turn goes on either way.
        step := None;
        return Replied(EmergencyRegistered);
      }

      if step == Some(NormalDetails) {
        data := data[Info := message];
        calls := calls + [AppendRow([message])];
        if sheetFails {
          // The append is not guarded, so its exception leaves the step as it was.
          return Raised;
        }
        step := None;
        return Replied(AppointmentBooked);
      }

      return Replied(FollowInstructions);
    }
  }
}
