/**
 * The session controller of the pre-consultation page as values: the whole
 * component state as one record, and each handler, together with the
 * draft-reload effect it triggers, as one transition function. The class in
 * page.dfy performs the same updates field by field; these functions are its
 * specification and carry the properties.
 */
module Flow {
  import opened Wrappers
  import opened Types
  import opened JsString
  import opened Helpers
  import opened GeneralConstants

  const NameRequired := "Name is required."
  const GenderRequired := "Gender is required. Please select an option."
  const DobFormat := "Date of Birth must be in DD/MM/YYYY format (e.g., 25/12/1990)."
  const AnswerRequired := "Please provide an answer to continue."

  /** The component state; `selected` is fixed when the component is created. */
  datatype Session = Session(
    step: Step,
    patient: PatientContext,
    index: int,
    loading: bool,
    draft: string,
    error: Option<string>,
    responses: seq<QuestionResponse>,
    selected: seq<QuestionItem>)

  /** The object handed to the persistence boundary when saving. */
  datatype Payload = Payload(patientContext: PatientContext, userResponses: seq<QuestionResponse>)

  /** The responses run parallel to the selected questions, carrying their texts. */
  predicate Parallel(responses: seq<QuestionResponse>, selected: seq<QuestionItem>) {
    && |responses| == |selected|
    && forall i :: 0 <= i < |responses| ==> responses[i].question == selected[i].text
  }

  /**
   * The session invariant: responses parallel to the questions, the index
   * always a valid question position (so in particular while the questions
   * are shown), and no save in progress between two events.
   */
  predicate Inv(s: Session) {
    && Parallel(s.responses, s.selected)
    && 0 <= s.index < |s.selected|
    && !s.loading
  }

  /** The responses a session starts with: one per selected question, carrying its text, with no answer yet. */
  function InitialResponses(selected: seq<QuestionItem>): (r: seq<QuestionResponse>)
    ensures Parallel(r, selected)
    ensures forall i :: 0 <= i < |r| ==> r[i].answer == ""
  {
    seq(|selected|, i requires 0 <= i < |selected| => QuestionResponse(selected[i].text, ""))
  }

  /** The state the component starts in, for a given selection of questions. */
  function Initial(selected: seq<QuestionItem>): (s: Session)
    ensures |selected| > 0 ==> Inv(s)
    ensures s.step == Consent && s.error == None && s.draft == ""
    ensures s.patient == InitialPatientContext && s.index == 0 && !s.loading
    ensures s.responses == InitialResponses(selected) && s.selected == selected
  {
    Session(Consent, InitialPatientContext, 0, false, "", None, InitialResponses(selected), selected)
  }

  /** `responses[i]?.answer || ''`: the recorded answer, or the empty string off the end. */
  function AnswerAt(responses: seq<QuestionResponse>, i: int): (a: string)
    ensures 0 <= i < |responses| ==> a == responses[i].answer
    ensures !(0 <= i < |responses|) ==> a == ""
  {
    if 0 <= i < |responses| then responses[i].answer else ""
  }

  /**
   * The effect that runs when the index, the step or the responses change:
   * while the questions are shown, the draft is reloaded from the recorded
   * answer at the index and the error is cleared.
   */
  function Reload(s: Session): (r: Session)
    ensures s.step == MedicalQuestions ==> r == s.(draft := AnswerAt(s.responses, s.index), error := None)
    ensures s.step != MedicalQuestions ==> r == s
  {
    if s.step == MedicalQuestions then s.(draft := AnswerAt(s.responses, s.index), error := None) else s
  }

  /** `handleConsent(agreed)`: clear the error, go on to the personal information or to the refusal. */
  function HandleConsent(s: Session, agreed: bool): (r: Session)
    ensures r.step == (if agreed then PersonalInfo else Denied) && r.error == None
    ensures r.(step := s.step, error := s.error) == s
    ensures Inv(s) ==> Inv(r)
  {
    s.(error := None, step := if agreed then PersonalInfo else Denied)
  }

  /**
   * The restart button of the refusal view and the back button of the
   * personal-information view: only the step changes, to the consent view;
   * context, responses, index and error are kept.
   */
  function ToConsent(s: Session): (r: Session)
    ensures r.step == Consent
    ensures r.patient == s.patient && r.responses == s.responses && r.index == s.index
    ensures r.error == s.error && r.draft == s.draft && r.loading == s.loading && r.selected == s.selected
  {
    s.(step := Consent)
  }

  /**
   * `validatePersonalInfo()`: the message of the first rule that fails, in
   * the order name, gender, date of birth; none when all three pass. Name and
   * gender are trimmed; the date of birth is matched untrimmed.
   */
  function ValidatePersonalInfo(p: PatientContext): (r: Option<string>)
    ensures r == None <==> !IsBlank(p.name) && !IsBlank(p.gender) && DobMatches(p.dob)
    ensures r == Some(NameRequired) <==> IsBlank(p.name)
    ensures r == Some(GenderRequired) <==> !IsBlank(p.name) && IsBlank(p.gender)
    ensures r == Some(DobFormat) <==> !IsBlank(p.name) && !IsBlank(p.gender) && !DobMatches(p.dob)
  {
    if IsBlank(p.name) then Some(NameRequired)
    else if IsBlank(p.gender) then Some(GenderRequired)
    else if !DobMatches(p.dob) then Some(DobFormat)
    else None
  }

  /**
   * The validation in the source's own terms: the name check fails exactly
   * when the name trims to nothing; the gender check is reached only with a
   * name and fails exactly when the gender trims to nothing; the date check
   * is reached only with both and fails exactly when the untrimmed date does
   * not match `^\d{2}\/\d{2}\/\d{4}$`; no message means all three pass.
   */
  lemma ValidationFirstFailure(p: PatientContext)
    ensures ValidatePersonalInfo(p) == Some(NameRequired) <==> Trim(p.name) == []
    ensures ValidatePersonalInfo(p) == Some(GenderRequired) <==> Trim(p.name) != [] && Trim(p.gender) == []
    ensures ValidatePersonalInfo(p) == Some(DobFormat) <==>
      Trim(p.name) != [] && Trim(p.gender) != [] && !FullMatch(DobPattern, p.dob)
    ensures ValidatePersonalInfo(p) == None <==>
      Trim(p.name) != [] && Trim(p.gender) != [] && FullMatch(DobPattern, p.dob)
  {
    TrimEmptyIffBlank(p.name);
    TrimEmptyIffBlank(p.gender);
    DobMatchesIsRegex(p.dob);
  }

  /**
   * `handlePersonalInfoNext()`: on a failed validation the error is set and
   * nothing else changes; otherwise the error is cleared and the first
   * question is shown with its recorded answer as the draft.
   */
  function HandlePersonalInfoNext(s: Session): (r: Session)
    ensures ValidatePersonalInfo(s.patient).Some? ==> r == s.(error := ValidatePersonalInfo(s.patient))
    ensures ValidatePersonalInfo(s.patient) == None ==>
      && r.step == MedicalQuestions && r.index == 0 && r.error == None
      && r.draft == AnswerAt(s.responses, 0)
      && r.responses == s.responses && r.patient == s.patient && r.selected == s.selected && r.loading == s.loading
    ensures Inv(s) ==> Inv(r)
  {
    var v := ValidatePersonalInfo(s.patient);
    if v.Some? then s.(error := v)
    else Reload(s.(error := None, index := 0, draft := AnswerAt(s.responses, 0), step := MedicalQuestions))
  }

  /**
   * `handleAnswerUpdate(i, a)` on the responses: a copy in which the answer
   * at `i` is `a`. Length, every question text and every other entry are
   * unchanged; an index outside the array leaves it as it was.
   */
  function UpdateAnswer(responses: seq<QuestionResponse>, i: int, a: string): (r: seq<QuestionResponse>)
    ensures |r| == |responses|
    ensures forall j :: 0 <= j < |r| ==> r[j].question == responses[j].question
    ensures forall j :: 0 <= j < |r| && j != i ==> r[j] == responses[j]
    ensures 0 <= i < |r| ==> r[i].answer == a
    ensures !(0 <= i < |responses|) ==> r == responses
  {
    if 0 <= i < |responses| then responses[i := responses[i].(answer := a)] else responses
  }

  /** Reading back after a commit: the committed answer at its position, the old answer everywhere else. */
  lemma AnswerAfterUpdate(responses: seq<QuestionResponse>, i: int, j: int, a: string)
    ensures 0 <= i < |responses| ==> AnswerAt(UpdateAnswer(responses, i, a), i) == a
    ensures j != i ==> AnswerAt(UpdateAnswer(responses, i, a), j) == AnswerAt(responses, j)
  {
  }

  /** Recording the answer that is already there leaves the responses as they were. */
  lemma UpdateSameAnswer(responses: seq<QuestionResponse>, i: int)
    ensures UpdateAnswer(responses, i, AnswerAt(responses, i)) == responses
  {
  }

  /** A second commit at the same position overrides the first; committing twice is committing once. */
  lemma UpdateLastWins(responses: seq<QuestionResponse>, i: int, a: string, b: string)
    ensures UpdateAnswer(UpdateAnswer(responses, i, a), i, b) == UpdateAnswer(responses, i, b)
    ensures UpdateAnswer(UpdateAnswer(responses, i, a), i, a) == UpdateAnswer(responses, i, a)
  {
  }

  /** Commits at two different positions do not interfere. */
  lemma UpdatesCommute(responses: seq<QuestionResponse>, i: int, j: int, a: string, b: string)
    requires i != j
    ensures UpdateAnswer(UpdateAnswer(responses, i, a), j, b) == UpdateAnswer(UpdateAnswer(responses, j, b), i, a)
  {
  }

  /**
   * `handleNext()`: a blank draft sets the error and changes nothing else.
   * Otherwise the untrimmed draft is recorded at the index, and then either
   * the next question is shown with its recorded answer as the draft and no
   * error, or, after the last question, the session moves on to saving.
   */
  function HandleNext(s: Session): (r: Session)
    ensures IsBlank(s.draft) ==> r == s.(error := Some(AnswerRequired))
    ensures !IsBlank(s.draft) ==>
      && r.responses == UpdateAnswer(s.responses, s.index, s.draft)
      && r.patient == s.patient && r.selected == s.selected && r.loading == s.loading
    ensures !IsBlank(s.draft) && s.step == MedicalQuestions && s.index < |s.selected| - 1 ==>
      && r.step == MedicalQuestions && r.index == s.index + 1 && r.error == None
      && r.draft == AnswerAt(s.responses, s.index + 1)
    ensures !IsBlank(s.draft) && s.index >= |s.selected| - 1 ==>
      && r.step == Saving && r.index == s.index && r.error == None && r.draft == s.draft
    ensures Inv(s) ==> Inv(r)
  {
    if IsBlank(s.draft) then s.(error := Some(AnswerRequired))
    else
      var committed := s.(error := None, responses := UpdateAnswer(s.responses, s.index, s.draft));
      if s.index < |s.selected| - 1 then Reload(committed.(index := s.index + 1))
      else Reload(committed.(step := Saving))
  }

  /**
   * `handleBack()`: the draft is recorded at the index without any check,
   * even when blank. Past the first question the previous one is shown with
   * its recorded answer as the draft and no error; at the first question the
   * session returns to the personal information with the index still 0 and
   * the error left as it was.
   */
  function HandleBack(s: Session): (r: Session)
    ensures r.responses == UpdateAnswer(s.responses, s.index, s.draft)
    ensures r.patient == s.patient && r.selected == s.selected && r.loading == s.loading
    ensures s.step == MedicalQuestions && s.index > 0 ==>
      && r.step == MedicalQuestions && r.index == s.index - 1 && r.error == None
      && r.draft == AnswerAt(s.responses, s.index - 1)
    ensures s.index <= 0 ==>
      r == s.(responses := UpdateAnswer(s.responses, s.index, s.draft), step := PersonalInfo)
    ensures Inv(s) ==> Inv(r)
  {
    var committed := s.(responses := UpdateAnswer(s.responses, s.index, s.draft));
    if s.index > 0 then Reload(committed.(index := s.index - 1))
    else committed.(step := PersonalInfo)
  }

  /** Which identity field an input edits. */
  datatype Field = Name | Dob | Gender

  /** Typing into a personal-information input (or choosing a gender) replaces that one field. */
  function EditPatient(s: Session, f: Field, value: string): (r: Session)
    ensures r.patient.name == (if f == Name then value else s.patient.name)
    ensures r.patient.dob == (if f == Dob then value else s.patient.dob)
    ensures r.patient.gender == (if f == Gender then value else s.patient.gender)
    ensures r.(patient := s.patient) == s
  {
    match f
    case Name => s.(patient := s.patient.(name := value))
    case Dob => s.(patient := s.patient.(dob := value))
    case Gender => s.(patient := s.patient.(gender := value))
  }

  /** Typing into the answer box replaces the draft and nothing else: the error stays. */
  function EditDraft(s: Session, value: string): (r: Session)
    ensures r.draft == value && r.(draft := s.draft) == s
  {
    s.(draft := value)
  }

  /**
   * The responses as saved: every recorded answer trimmed, except that the
   * answer at `index` is the trimmed draft; order and question texts are kept.
   */
  function FinalResponses(responses: seq<QuestionResponse>, index: int, draft: string): (r: seq<QuestionResponse>)
    ensures |r| == |responses|
    ensures forall i :: 0 <= i < |r| ==> r[i].question == responses[i].question
    ensures forall i :: 0 <= i < |r| ==> IsTrimmed(r[i].answer)
    ensures forall i :: 0 <= i < |r| && i != index ==> r[i].answer == Trim(responses[i].answer)
    ensures 0 <= index < |r| ==> r[index].answer == Trim(draft)
  {
    seq(|responses|, i requires 0 <= i < |responses| =>
      responses[i].(answer := if i == index then Trim(draft) else Trim(responses[i].answer)))
  }

  /**
   * The payload built by the save: the patient context as it is, and one
   * response per recorded one with every answer trimmed, the trimmed draft
   * standing at the current index.
   */
  function BuildPayload(s: Session): (p: Payload)
    ensures p.patientContext == s.patient
    ensures Parallel(s.responses, s.selected) ==> Parallel(p.userResponses, s.selected)
    ensures |p.userResponses| == |s.responses|
    ensures forall i :: 0 <= i < |p.userResponses| ==> IsTrimmed(p.userResponses[i].answer)
    ensures 0 <= s.index < |s.responses| ==> p.userResponses[s.index].answer == Trim(s.draft)
    ensures forall i :: 0 <= i < |p.userResponses| && i != s.index ==>
      p.userResponses[i].answer == Trim(s.responses[i].answer)
  {
    Payload(s.patient, FinalResponses(s.responses, s.index, s.draft))
  }

  /**
   * The effect that runs on entering the saving step: it builds the payload
   * and, once the simulated delay is over, completes the session. In any
   * other step it does nothing.
   */
  function SaveEffect(s: Session): (r: Session)
    ensures s.step == Saving ==> r == s.(step := Complete, loading := false)
    ensures s.step != Saving ==> r == s
    ensures Inv(s) ==> Inv(r)
  {
    if s.step == Saving then s.(step := Complete, loading := false) else s
  }

  // ---------------------------------------------------------------------------
  // Properties over several steps.

  /**
   * Going forward from a question that is not the last and then back
   * returns to the same question with the same draft: the only trace left is
   * the draft recorded at that question and a cleared error.
   */
  lemma BackAfterNext(s: Session)
    requires Inv(s) && s.step == MedicalQuestions
    requires !IsBlank(s.draft) && s.index < |s.selected| - 1
    ensures HandleBack(HandleNext(s)) == s.(responses := UpdateAnswer(s.responses, s.index, s.draft), error := None)
  {
    var t := HandleNext(s);
    UpdateSameAnswer(t.responses, t.index);
  }

  /**
   * Going back from a question past the first and then forward (the
   * previous question's recorded answer being non-blank) returns to the
   * same question with the same draft.
   */
  lemma NextAfterBack(s: Session)
    requires Inv(s) && s.step == MedicalQuestions && s.index > 0
    requires !IsBlank(AnswerAt(s.responses, s.index - 1))
    ensures HandleNext(HandleBack(s)) == s.(responses := UpdateAnswer(s.responses, s.index, s.draft), error := None)
  {
    var t := HandleBack(s);
    UpdateSameAnswer(t.responses, t.index);
  }

  /**
   * Finishing the last question moves to saving, and the save then
   * completes the session with a payload whose answer at that question is
   * the trimmed draft and whose other answers are the trimmed recorded ones.
   */
  lemma FinishThenSave(s: Session)
    requires Inv(s) && s.step == MedicalQuestions
    requires !IsBlank(s.draft) && s.index == |s.selected| - 1
    ensures HandleNext(s).step == Saving
    ensures SaveEffect(HandleNext(s)).step == Complete
    ensures var p := BuildPayload(HandleNext(s));
      && p.patientContext == s.patient
      && |p.userResponses| == |s.selected|
      && p.userResponses[s.index] == QuestionResponse(s.selected[s.index].text, Trim(s.draft))
      && forall i :: 0 <= i < |s.selected| && i != s.index ==>
           p.userResponses[i] == QuestionResponse(s.selected[i].text, Trim(s.responses[i].answer))
  {
  }

  /**
   * Refusing consent and restarting returns to the consent view with the
   * identity fields and the responses as they were: nothing is reset.
   */
  lemma RefuseThenRestart(s: Session)
    ensures ToConsent(HandleConsent(s, false)) == s.(step := Consent, error := None)
  {
  }

  /**
   * Going back from the first question keeps a pending "answer required"
   * error on the personal-information view.
   */
  lemma BackFromFirstKeepsError(s: Session)
    requires Inv(s) && s.step == MedicalQuestions && s.index == 0
    ensures HandleBack(s).step == PersonalInfo && HandleBack(s).error == s.error
    ensures HandleBack(s).responses[0].answer == s.draft
  {
  }

  /** The empty initial context fails validation on the name rule first. */
  lemma InitialContextFailsOnName()
    ensures ValidatePersonalInfo(InitialPatientContext) == Some(NameRequired)
  {
  }

  /** A missing name is reported first, whatever the other fields hold. */
  lemma MissingNameExample()
    ensures ValidatePersonalInfo(PatientContext("", "01/01/2000", "Male")) == Some(NameRequired)
  {
  }

  /** With a name present, a missing gender is reported. */
  lemma MissingGenderExample()
    ensures ValidatePersonalInfo(PatientContext("Jo", "01/01/2000", "")) == Some(GenderRequired)
  {
    assert !IsWhitespace("Jo"[0]) && !IsWhitespace("Jo"[1]);
  }

  /** With name and gender present, an ISO date is reported. */
  lemma IsoDateExample()
    ensures ValidatePersonalInfo(PatientContext("Jo", "2000-01-01", "Male")) == Some(DobFormat)
  {
    assert !IsWhitespace("Jo"[0]);
    assert !IsWhitespace("Male"[0]);
    assert "2000-01-01"[2] != '/';
  }

  /** All three rules pass: no error. */
  lemma ValidIdentityExample()
    ensures ValidatePersonalInfo(PatientContext("Jo", "01/01/2000", "Male")) == None
  {
    assert !IsWhitespace("Jo"[0]);
    assert !IsWhitespace("Male"[0]);
    assert DobShape("01/01/2000");
  }

  // ---------------------------------------------------------------------------
  // Runs of events.

  /** What the user (or the saving effect) can do. */
  datatype Event =
    | ConsentGiven(agreed: bool)
    | Restart
    | EditIdentity(field: Field, value: string)
    | BackToConsent
    | ConfirmIdentity
    | EditAnswer(value: string)
    | NextQuestion
    | PreviousQuestion
    | SaveDone

  /** One event applied to the session. */
  function Apply(s: Session, e: Event): (r: Session)
    ensures Inv(s) ==> Inv(r)
    ensures r.selected == s.selected
  {
    match e
    case ConsentGiven(a) => HandleConsent(s, a)
    case Restart => ToConsent(s)
    case EditIdentity(f, v) => EditPatient(s, f, v)
    case BackToConsent => ToConsent(s)
    case ConfirmIdentity => HandlePersonalInfoNext(s)
    case EditAnswer(v) => EditDraft(s, v)
    case NextQuestion => HandleNext(s)
    case PreviousQuestion => HandleBack(s)
    case SaveDone => SaveEffect(s)
  }

  /** The events applied in order. */
  function Run(s: Session, events: seq<Event>): Session
    decreases |events|
  {
    if events == [] then s else Run(Apply(s, events[0]), events[1..])
  }

  /** The invariant holds after any sequence of events. */
  lemma {:induction false} RunKeepsInv(s: Session, events: seq<Event>)
    requires Inv(s)
    ensures Inv(Run(s, events))
    ensures Run(s, events).selected == s.selected
    decreases |events|
  {
    if events != [] {
      RunKeepsInv(Apply(s, events[0]), events[1..]);
    }
  }

  /**
   * From the start of a session, after any sequence of events, the
   * responses still run parallel to the selected questions and the index is
   * a valid question position.
   */
  lemma ReachableFrom(sel: seq<QuestionItem>, events: seq<Event>)
    requires |sel| > 0
    ensures var r := Run(Initial(sel), events);
      r.selected == sel && Parallel(r.responses, sel) && 0 <= r.index < |sel|
  {
    RunKeepsInv(Initial(sel), events);
  }

  /** The events the rendered view of each step offers (the next/back buttons are disabled while loading). */
  predicate Enabled(s: Session, e: Event) {
    match e
    case ConsentGiven(_) => s.step == Consent
    case Restart => s.step == Denied
    case EditIdentity(_, _) => s.step == PersonalInfo
    case BackToConsent => s.step == PersonalInfo
    case ConfirmIdentity => s.step == PersonalInfo
    case EditAnswer(_) => s.step == MedicalQuestions
    case NextQuestion => s.step == MedicalQuestions && !s.loading
    case PreviousQuestion => s.step == MedicalQuestions && !s.loading
    case SaveDone => s.step == Saving
  }

  /** The step transitions of the wizard; a step may also stay where it is. */
  predicate Edge(from: Step, to: Step) {
    || from == to
    || (from == Consent && (to == PersonalInfo || to == Denied))
    || (from == Denied && to == Consent)
    || (from == PersonalInfo && (to == MedicalQuestions || to == Consent))
    || (from == MedicalQuestions && (to == Saving || to == PersonalInfo))
    || (from == Saving && to == Complete)
  }

  /** Every event a view offers moves the step along the wizard's graph, and the saving view leads only to completion. */
  lemma EnabledFollowsEdges(s: Session, e: Event)
    requires Enabled(s, e)
    ensures Edge(s.step, Apply(s, e).step)
    ensures s.step == Saving ==> Apply(s, e).step == Complete
  {
  }

  /** The completed view offers no event: the session ends there. */
  lemma CompleteIsFinal(s: Session, e: Event)
    requires s.step == Complete
    ensures !Enabled(s, e)
  {
  }

  /** Runs of offered events only. */
  predicate EnabledRun(s: Session, events: seq<Event>)
    decreases |events|
  {
    events == [] || (Enabled(s, events[0]) && EnabledRun(Apply(s, events[0]), events[1..]))
  }

  /** From the completed view the only run of offered events is the empty one. */
  lemma CompleteStays(s: Session, events: seq<Event>)
    requires s.step == Complete && EnabledRun(s, events)
    ensures events == [] && Run(s, events) == s
  {
    if events != [] {
      CompleteIsFinal(s, events[0]);
    }
  }

  /**
   * Along a run of offered events every step change is an edge of the
   * wizard's graph; in particular completion is reached only through saving.
   */
  lemma {:induction false} EnabledRunReachesComplete(s: Session, events: seq<Event>)
    requires EnabledRun(s, events)
    requires s.step != Complete && Run(s, events).step == Complete
    ensures exists k :: 0 <= k < |events| && Run(s, events[..k]).step == Saving && events[k] == SaveDone
    decreases |events|
  {
    var t := Apply(s, events[0]);
    EnabledFollowsEdges(s, events[0]);
    assert Run(s, events[..1]) == t by {
      assert events[..1][1..] == [];
    }
    if t.step == Complete {
      assert s.step == Saving && events[0] == SaveDone;
      assert Run(s, events[..0]) == s;
    } else {
      EnabledRunReachesComplete(t, events[1..]);
      var k :| 0 <= k < |events[1..]| && Run(t, events[1..][..k]).step == Saving && events[1..][k] == SaveDone;
      assert events[..k + 1][1..] == events[1..][..k];
      assert Run(s, events[..k + 1]) == Run(t, events[1..][..k]);
    }
  }
}
