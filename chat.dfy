/** The intake conversation of the chat bot: one turn of `process_message` as a pure
    transition on the session record `user_state`, the collaborator call it makes, and
    the properties of that transition. */
module Chat {
  import opened PyStr

  datatype Option<+T> = None | Some(value: T)

  // The values `user_state["step"]` takes besides `None`.
  const AskService := "ask_service"
  const AskEmergency := "ask_emergency"
  const EmergencyDetails := "emergency_details"
  const NormalDetails := "normal_details"

  /** The one key ever written into `user_state["data"]`. */
  const Info := "info"

  /** Subject line of the alert mail sent for an emergency. */
  const EmergencySubject := "🚨 New Emergency Service Request"

  /** The fixed replies of `process_message`. */
  datatype Reply =
    | Welcome
    | AskUrgency
    | ServiceDeclined
    | EmergencyPrompt
    | NormalPrompt
    | UrgencyReprompt
    | EmergencyRegistered
    | AppointmentBooked
    | FollowInstructions

  /** The text each reply stands for, as the user sees it. */
  function ReplyText(r: Reply): string {
    match r
    case Welcome => "👋 Welcome! Do you need any service today? (yes / no)"
    case AskUrgency => "⚠️ Is it emergency or normal?"
    case ServiceDeclined => "😊 Alright! Message us anytime."
    case EmergencyPrompt => "🚨 Emergency detected! Please share:\n• Full Name\n• Address\n• Contact Number"
    case NormalPrompt => "📝 Please provide:\n• Full Name\n• Address\n• Preferred Appointment Time"
    case UrgencyReprompt => "❗ Please type: emergency OR normal"
    case EmergencyRegistered => "🚑 Emergency registered! Our team is on the way. Stay safe."
    case AppointmentBooked => "📅 Your appointment is booked! Our team will visit at the chosen time."
    case FollowInstructions => "⚠️ Please follow instructions."
  }

  /** The lengths of the reply texts, in Unicode scalar values. */
  lemma ReplyTextLengths(r: Reply)
    ensures |ReplyText(r)| == match r
      case Welcome => 52 case AskUrgency => 29 case ServiceDeclined => 30
      case EmergencyPrompt => 74 case NormalPrompt => 68 case UrgencyReprompt => 34
      case EmergencyRegistered => 58 case AppointmentBooked => 69 case FollowInstructions => 30
  {
    match r {
      case Welcome => case AskUrgency => case ServiceDeclined => case EmergencyPrompt =>
      case NormalPrompt => case UrgencyReprompt => case EmergencyRegistered =>
      case AppointmentBooked => case FollowInstructions =>
    }
  }

  /** Distinct replies have distinct texts, so each reply stands for exactly one of
      the strings `process_message` returns. */
  lemma ReplyTextInjective(a: Reply, b: Reply)
    ensures ReplyText(a) == ReplyText(b) ==> a == b
  {
    ReplyTextLengths(a);
    ReplyTextLengths(b);
    if ReplyText(a) == ReplyText(b) && |ReplyText(a)| == 30 {
      assert ReplyText(ServiceDeclined)[0] != ReplyText(FollowInstructions)[0];
    }
  }

  /** How a call of `process_message` ends: with a reply, or by letting the exception
      raised by the sheet append escape. */
  datatype Outcome = Replied(reply: Reply) | Raised

  /** The call a turn makes to an external collaborator: `send_gmail(subject, body)`,
      `save_to_sheet(values)`, or none. */
  datatype Call = NoCall | SendMail(subject: string, body: string) | AppendRow(values: seq<string>)

  /** The session record `user_state`: the current step and the collected data. */
  datatype State = State(step: Option<string>, data: map<string, string>) {
    /** The step is `None` or one of the four named steps, and only `"info"` is ever
        stored. */
    predicate Valid()
      ensures Valid() ==> data == map[] || data.Keys == {Info}
    {
      (step.None? || step.value in {AskService, AskEmergency, EmergencyDetails, NormalDetails})
      && data.Keys <= {Info}
    }
  }

  /** The four step names are pairwise distinct. */
  lemma StepNamesDistinct()
    ensures AskService != AskEmergency && AskService != EmergencyDetails && AskService != NormalDetails
    ensures AskEmergency != EmergencyDetails && AskEmergency != NormalDetails
    ensures EmergencyDetails != NormalDetails
  {
    assert AskService[4] != AskEmergency[4];
    assert |AskService| != |EmergencyDetails|;
    assert AskService[0] != NormalDetails[0];
    assert AskEmergency[0] != EmergencyDetails[0];
    assert AskEmergency[0] != NormalDetails[0];
    assert EmergencyDetails[0] != NormalDetails[0];
  }

  /** The session record a fresh process starts with: no step, no data. */
  function Initial(): (s: State)
    ensures s.Valid() && s.step.None? && |s.data| == 0
  {
    State(None, map[])
  }

  datatype TurnResult = TurnResult(next: State, call: Call, outcome: Outcome)

  /** `message.lower().strip()`: the text every step decision looks at. */
  function Normalize(message: string): (n: string)
    ensures Trimmed(n) && |n| <= |message|
    ensures forall i :: 0 <= i < |n| ==> !('A' <= n[i] <= 'Z')
  {
    StripPieces(Lower(message));
    Strip(Lower(message))
  }

  /** One call of `process_message(message)` on session record `s`. `emailFails` and
      `sheetFails` say whether the collaborator called in this turn raises. */
  function Turn(s: State, message: string, emailFails: bool, sheetFails: bool): (r: TurnResult)
    ensures r.outcome.Raised? <==> s.step == Some(NormalDetails) && sheetFails
    ensures !r.call.NoCall? <==> s.step == Some(EmergencyDetails) || s.step == Some(NormalDetails)
    ensures r.next.data == s.data || r.next.data == s.data[Info := message]
    ensures s.Valid() ==> r.next.Valid()
  {
    var msg := Normalize(message);
    if s.step.None? then
      TurnResult(State(Some(AskService), s.data), NoCall, Replied(Welcome))
    else if s.step == Some(AskService) then
      if Contains(msg, "yes") then TurnResult(State(Some(AskEmergency), s.data), NoCall, Replied(AskUrgency))
      else TurnResult(State(None, s.data), NoCall, Replied(ServiceDeclined))
    else if s.step == Some(AskEmergency) then
      if Contains(msg, "emergency") then
        TurnResult(State(Some(EmergencyDetails), s.data), NoCall, Replied(EmergencyPrompt))
      else if Contains(msg, "normal") then
        TurnResult(State(Some(NormalDetails), s.data), NoCall, Replied(NormalPrompt))
      else TurnResult(s, NoCall, Replied(UrgencyReprompt))
    else if s.step == Some(EmergencyDetails) then
      // A failed send is caught and only printed, so `emailFails` changes nothing.
      var data := s.data[Info := message];
      TurnResult(State(None, data), SendMail(EmergencySubject, message), Replied(EmergencyRegistered))
    else if s.step == Some(NormalDetails) then
      // The info is stored before the append; a failing append skips the step reset.
      var data := s.data[Info := message];
      if sheetFails then TurnResult(State(s.step, data), AppendRow([message]), Raised)
      else TurnResult(State(None, data), AppendRow([message]), Replied(AppointmentBooked))
    else
      TurnResult(s, NoCall, Replied(FollowInstructions))
  }

  /** The calls a turn adds to the collaborators' log. */
  function CallLog(c: Call): seq<Call> {
    if c.NoCall? then [] else [c]
  }

  // ---------------------------------------------------------------------------
  // One turn, step by step
  // ---------------------------------------------------------------------------

  /** From `None` every message, the empty one included, starts the conversation. */
  lemma IdleTurn(s: State, message: string, emailFails: bool, sheetFails: bool)
    requires s.step.None?
    ensures Turn(s, message, emailFails, sheetFails)
         == TurnResult(State(Some(AskService), s.data), NoCall, Replied(Welcome))
  {
  }

  /** The service question is answered with yes exactly when "yes" occurs in the
      normalised message; any other answer ends the conversation. */
  lemma ServiceAnswerTurn(s: State, message: string, emailFails: bool, sheetFails: bool)
    requires s.step == Some(AskService)
    ensures var r := Turn(s, message, emailFails, sheetFails);
      var yes := exists i :: OccursAt(Normalize(message), "yes", i);
      r.next.step == (if yes then Some(AskEmergency) else None)
      && r.outcome == Replied(if yes then AskUrgency else ServiceDeclined)
      && r.call == NoCall && r.next.data == s.data
  {
  }

  /** "emergency" is looked for before "normal"; a message with neither leaves the
      step where it is and repeats the question. */
  lemma UrgencyAnswerTurn(s: State, message: string, emailFails: bool, sheetFails: bool)
    requires s.step == Some(AskEmergency)
    ensures var r := Turn(s, message, emailFails, sheetFails);
      var emergency := exists i :: OccursAt(Normalize(message), "emergency", i);
      var normal := exists i :: OccursAt(Normalize(message), "normal", i);
      r.call == NoCall && r.next.data == s.data
      && (emergency ==> r.next.step == Some(EmergencyDetails) && r.outcome == Replied(EmergencyPrompt))
      && (!emergency && normal ==> r.next.step == Some(NormalDetails) && r.outcome == Replied(NormalPrompt))
      && (!emergency && !normal ==> r.next == s && r.outcome == Replied(UrgencyReprompt))
  {
  }

  /** The emergency details are stored as typed and mailed once, and the conversation
      returns to `None` whether or not the mail goes out. */
  lemma EmergencyDetailsTurn(s: State, message: string, emailFails: bool, sheetFails: bool)
    requires s.step == Some(EmergencyDetails)
    ensures Turn(s, message, emailFails, sheetFails)
         == TurnResult(State(None, s.data[Info := message]), SendMail(EmergencySubject, message),
                       Replied(EmergencyRegistered))
  {
  }

  /** The appointment details are stored as typed and appended as a one-cell row; the
      step returns to `None` only when the append succeeds. */
  lemma NormalDetailsTurn(s: State, message: string, emailFails: bool, sheetFails: bool)
    requires s.step == Some(NormalDetails)
    ensures var r := Turn(s, message, emailFails, sheetFails);
      r.next.data == s.data[Info := message] && r.call == AppendRow([message])
      && r.next.step == (if sheetFails then Some(NormalDetails) else None)
      && r.outcome == (if sheetFails then Raised else Replied(AppointmentBooked))
  {
  }

  /** A failing mail send is swallowed: it changes neither the state nor the reply. */
  lemma MailFailureSwallowed(s: State, message: string, sheetFails: bool)
    ensures Turn(s, message, true, sheetFails) == Turn(s, message, false, sheetFails)
  {
  }

  /** On a session record whose step is one of the five values, the fallback reply is
      never given; on any other step it is given and nothing changes. */
  lemma FallbackUnreachable(s: State, message: string, emailFails: bool, sheetFails: bool)
    ensures var r := Turn(s, message, emailFails, sheetFails);
      s.Valid() ==> r.outcome != Replied(FollowInstructions)
    ensures var r := Turn(s, message, emailFails, sheetFails);
      !s.step.None? && s.step.value !in {AskService, AskEmergency, EmergencyDetails, NormalDetails}
      ==> r == TurnResult(s, NoCall, Replied(FollowInstructions))
  {
    StepNamesDistinct();
  }

  // ---------------------------------------------------------------------------
  // Normalisation
  // ---------------------------------------------------------------------------

  /** The step decisions see only the normalised text: two messages that normalise
      alike lead to the same step, the same reply and the same kind of call. */
  lemma DecisionsSeeOnlyNormalized(s: State, m1: string, m2: string, emailFails: bool, sheetFails: bool)
    requires Normalize(m1) == Normalize(m2)
    ensures var r1, r2 := Turn(s, m1, emailFails, sheetFails), Turn(s, m2, emailFails, sheetFails);
      r1.next.step == r2.next.step && r1.outcome == r2.outcome && r1.call.NoCall? == r2.call.NoCall?
  {
    StepNamesDistinct();
    if s.step == Some(AskService) {
      ServiceAnswerTurn(s, m1, emailFails, sheetFails);
      ServiceAnswerTurn(s, m2, emailFails, sheetFails);
    } else if s.step == Some(AskEmergency) {
      UrgencyAnswerTurn(s, m1, emailFails, sheetFails);
      UrgencyAnswerTurn(s, m2, emailFails, sheetFails);
    }
  }

  /** Two messages that differ only in the case of ASCII letters normalise alike. */
  lemma {:induction false} NormalizeIgnoresCase(m1: string, m2: string)
    requires SameUpToCase(m1, m2)
    ensures Normalize(m1) == Normalize(m2)
  {
    assert Lower(m1) == Lower(m2);
  }

  /** Normalisation ignores whitespace around the message and ASCII letter case. */
  lemma {:induction false} NormalizeIgnoresPaddingAndCase(p: string, m1: string, m2: string, q: string)
    requires AllSpace(p) && AllSpace(q) && SameUpToCase(m1, m2)
    ensures Normalize(p + m1 + q) == Normalize(m2)
  {
    assert Lower(m1) == Lower(m2);
    LowerPadded(p, m1, q);
    StripIgnoresPadding(p, Lower(m2), q);
  }

  /** Normalising twice is normalising once. */
  lemma {:induction false} NormalizeIdempotent(message: string)
    ensures Normalize(Normalize(message)) == Normalize(message)
  {
    var n := Normalize(message);
    StripLowerCommute(Lower(message));
    LowerIdempotent(message);
    StripIdempotent(Lower(message));
    assert Lower(n) == n;
    StripIdempotent(n);
  }

  /** The strip in the normalisation never changes a step decision: none of the
      keywords looked for has whitespace at its ends. */
  lemma {:induction false} KeywordTestsIgnoreStrip(message: string, keyword: string)
    requires keyword in {"yes", "emergency", "normal"}
    ensures Contains(Normalize(message), keyword) == Contains(Lower(message), keyword)
  {
    assert Trimmed(keyword);
    ContainsIgnoresStrip(Lower(message), keyword);
  }

  // ---------------------------------------------------------------------------
  // Successive turns
  // ---------------------------------------------------------------------------

  /** What a sequence of turns produced: the final session record, the collaborator
      calls in order, and the outcome of each turn. */
  datatype Trace = Trace(final: State, calls: seq<Call>, outcomes: seq<Outcome>)

  /** `process_message` called on each message in order, every collaborator call
      succeeding. */
  function Run(s: State, messages: seq<string>): (t: Trace)
    ensures |t.outcomes| == |messages|
    ensures |t.calls| <= |messages|
    ensures s.Valid() ==> t.final.Valid()
    ensures Raised !in t.outcomes
    decreases |messages|
  {
    if messages == [] then Trace(s, [], [])
    else
      var r := Turn(s, messages[0], false, false);
      var rest := Run(r.next, messages[1..]);
      Trace(rest.final, CallLog(r.call) + rest.calls, [r.outcome] + rest.outcomes)
  }

  /** Greeting, "yes", "emergency", details: back at `None` with exactly one mail
      carrying the details, and no sheet row. */
  lemma {:induction false} EmergencyConversation(s: State, greeting: string, answer: string, urgency: string, details: string)
    requires s.step.None?
    requires Contains(Normalize(answer), "yes") && Contains(Normalize(urgency), "emergency")
    ensures Run(s, [greeting, answer, urgency, details])
         == Trace(State(None, s.data[Info := details]), [SendMail(EmergencySubject, details)],
                  [Replied(Welcome), Replied(AskUrgency), Replied(EmergencyPrompt), Replied(EmergencyRegistered)])
  {
    var s1 := State(Some(AskService), s.data);
    var s2 := State(Some(AskEmergency), s.data);
    var s3 := State(Some(EmergencyDetails), s.data);
    var s4 := State(None, s.data[Info := details]);
    IdleTurn(s, greeting, false, false);
    ServiceAnswerTurn(s1, answer, false, false);
    UrgencyAnswerTurn(s2, urgency, false, false);
    EmergencyDetailsTurn(s3, details, false, false);
    var mail := SendMail(EmergencySubject, details);
    assert Run(s3, [details]) == Trace(s4, [mail], [Replied(EmergencyRegistered)]) by {
      assert [details][1..] == [];
    }
    assert Run(s2, [urgency, details]) == Trace(s4, [mail], [Replied(EmergencyPrompt), Replied(EmergencyRegistered)]) by {
      assert [urgency, details][1..] == [details];
    }
    assert Run(s1, [answer, urgency, details])
        == Trace(s4, [mail], [Replied(AskUrgency), Replied(EmergencyPrompt), Replied(EmergencyRegistered)]) by {
      assert [answer, urgency, details][1..] == [urgency, details];
    }
    assert [greeting, answer, urgency, details][1..] == [answer, urgency, details];
  }

  /** Greeting, "yes", "normal" (without "emergency"), details: back at `None` with
      exactly one one-cell row holding the details, and no mail. */
  lemma {:induction false} AppointmentConversation(s: State, greeting: string, answer: string, urgency: string, details: string)
    requires s.step.None?
    requires Contains(Normalize(answer), "yes")
    requires !Contains(Normalize(urgency), "emergency") && Contains(Normalize(urgency), "normal")
    ensures Run(s, [greeting, answer, urgency, details])
         == Trace(State(None, s.data[Info := details]), [AppendRow([details])],
                  [Replied(Welcome), Replied(AskUrgency), Replied(NormalPrompt), Replied(AppointmentBooked)])
  {
    var s1 := State(Some(AskService), s.data);
    var s2 := State(Some(AskEmergency), s.data);
    var s3 := State(Some(NormalDetails), s.data);
    var s4 := State(None, s.data[Info := details]);
    IdleTurn(s, greeting, false, false);
    ServiceAnswerTurn(s1, answer, false, false);
    UrgencyAnswerTurn(s2, urgency, false, false);
    NormalDetailsTurn(s3, details, false, false);
    var row := AppendRow([details]);
    assert Run(s3, [details]) == Trace(s4, [row], [Replied(AppointmentBooked)]) by {
      assert [details][1..] == [];
    }
    assert Run(s2, [urgency, details]) == Trace(s4, [row], [Replied(NormalPrompt), Replied(AppointmentBooked)]) by {
      assert [urgency, details][1..] == [details];
    }
    assert Run(s1, [answer, urgency, details])
        == Trace(s4, [row], [Replied(AskUrgency), Replied(NormalPrompt), Replied(AppointmentBooked)]) by {
      assert [answer, urgency, details][1..] == [urgency, details];
    }
    assert [greeting, answer, urgency, details][1..] == [answer, urgency, details];
  }

  /** Greeting and anything without "yes": back at `None` with no call made. */
  lemma {:induction false} DeclinedConversation(s: State, greeting: string, answer: string)
    requires s.step.None?
    requires !Contains(Normalize(answer), "yes")
    ensures Run(s, [greeting, answer]) == Trace(State(None, s.data), [], [Replied(Welcome), Replied(ServiceDeclined)])
  {
    var s1 := State(Some(AskService), s.data);
    IdleTurn(s, greeting, false, false);
    ServiceAnswerTurn(s1, answer, false, false);
    assert Run(s1, [answer]) == Trace(State(None, s.data), [], [Replied(ServiceDeclined)]) by {
      assert [answer][1..] == [];
    }
    assert [greeting, answer][1..] == [answer];
  }
}
