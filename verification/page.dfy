/**
 * The pre-consultation page component: its state variables as fields and
 * its handlers as methods that update them one by one, in the order the
 * handlers call their setters. The effect that reloads the draft is a
 * method of its own, run at the end of each handler that changes one of the
 * values it watches. Every method is specified by the transition function
 * of the same name in Flow, on the value `Model()`.
 */
module PreConsultBotPage {
  import opened Wrappers
  import opened Types
  import opened JsString
  import opened Helpers
  import opened GeneralConstants
  import Flow

  class Chatbot {
    /** The five questions chosen when the component is created; never re-chosen. */
    const selected: seq<QuestionItem>

    var step: Step
    var patient: PatientContext
    var index: int
    var loading: bool
    var draft: string
    var error: Option<string>
    var responses: seq<QuestionResponse>

    /** The component state as one value. */
    function Model(): Flow.Session
      reads this
    {
      Flow.Session(step, patient, index, loading, draft, error, responses, selected)
    }

    ghost predicate Valid()
      reads this
    {
      Flow.Inv(Model())
    }

    /**
     * Mounting the component: the questions are selected once, with `perm`
     * standing for the random order, and every other value starts empty.
     */
    constructor (perm: seq<nat>)
      requires IsPermutation(perm, |QuestionsPool|)
      ensures Valid()
      ensures selected == SelectRandomQuestions(QuestionsPool, NumQuestions, perm) && |selected| == NumQuestions
      ensures Model() == Flow.Initial(selected)
    {
      var chosen := SelectRandomQuestions(QuestionsPool, NumQuestions, perm);
      ConfiguredSelection(perm);
      assert |chosen| > 0;
      selected := chosen;
      step := Consent;
      patient := InitialPatientContext;
      index := 0;
      loading := false;
      draft := "";
      error := None;
      responses := Flow.InitialResponses(chosen);
      new;
      assert Model() == Flow.Initial(chosen);
    }

    /** The draft-reload effect: while the questions are shown, reload the draft and clear the error. */
    method ReloadEffect()
      requires Valid()
      modifies this
      ensures Valid()
      ensures Model() == Flow.Reload(old(Model()))
    {
      if step == MedicalQuestions {
        draft := Flow.AnswerAt(responses, index);
        error := None;
      }
    }

    method HandleConsent(agreed: bool)
      requires Valid()
      modifies this
      ensures Valid()
      ensures Model() == Flow.HandleConsent(old(Model()), agreed)
    {
      error := None;
      if agreed {
        step := PersonalInfo;
      } else {
        step := Denied;
      }
    }

    /** The restart button of the refusal view. */
    method RestartConsultation()
      requires Valid()
      modifies this
      ensures Valid()
      ensures Model() == Flow.ToConsent(old(Model()))
    {
      step := Consent;
    }

    /** The back button of the personal-information view. */
    method BackToConsent()
      requires Valid()
      modifies this
      ensures Valid()
      ensures Model() == Flow.ToConsent(old(Model()))
    {
      step := Consent;
    }

    /** An edit in one of the personal-information inputs. */
    method EditPatient(f: Flow.Field, value: string)
      requires Valid()
      modifies this
      ensures Valid()
      ensures Model() == Flow.EditPatient(old(Model()), f, value)
    {
      match f
      case Name => patient := patient.(name := value);
      case Dob => patient := patient.(dob := value);
      case Gender => patient := patient.(gender := value);
    }

    /** An edit in the answer box. */
    method EditDraft(value: string)
      requires Valid()
      modifies this
      ensures Valid()
      ensures Model() == Flow.EditDraft(old(Model()), value)
    {
      draft := value;
    }

    method HandlePersonalInfoNext()
      requires Valid()
      modifies this
      ensures Valid()
      ensures Model() == Flow.HandlePersonalInfoNext(old(Model()))
    {
      var validationError := Flow.ValidatePersonalInfo(patient);
      if validationError.Some? {
        error := validationError;
        return;
      }
      error := None;
      index := 0;
      draft := Flow.AnswerAt(responses, 0);
      step := MedicalQuestions;
      ReloadEffect();
    }

    /** Records `answer` at position `i` of the responses, if there is such a position. */
    method AnswerUpdate(i: int, answer: string)
      requires Valid()
      modifies this
      ensures Valid()
      ensures Model() == old(Model()).(responses := Flow.UpdateAnswer(old(responses), i, answer))
    {
      responses := Flow.UpdateAnswer(responses, i, answer);
    }

    method HandleNext()
      requires Valid()
      modifies this
      ensures Valid()
      ensures Model() == Flow.HandleNext(old(Model()))
    {
      ghost var s := Model();
      if IsBlank(draft) {
        error := Some(Flow.AnswerRequired);
        return;
      }
      error := None;
      AnswerUpdate(index, draft);
      assert Model() == s.(error := None, responses := Flow.UpdateAnswer(s.responses, s.index, s.draft));
      if index < |selected| - 1 {
        index := index + 1;
      } else {
        step := Saving;
      }
      ReloadEffect();
    }

    method HandleBack()
      requires Valid()
      modifies this
      ensures Valid()
      ensures Model() == Flow.HandleBack(old(Model()))
    {
      AnswerUpdate(index, draft);
      if index > 0 {
        index := index - 1;
      } else {
        step := PersonalInfo;
      }
      ReloadEffect();
    }

    /**
     * The saving effect: on the saving step, build the payload (returned
     * here, since sending it is outside the model) and complete the session.
     */
    method SaveEffect() returns (sent: Option<Flow.Payload>)
      requires Valid()
      modifies this
      ensures Valid()
      ensures Model() == Flow.SaveEffect(old(Model()))
      ensures sent == if old(step) == Saving then Some(Flow.BuildPayload(old(Model()))) else None
    {
      sent := None;
      if step == Saving {
        loading := true;
        var finalResponses := Flow.FinalResponses(responses, index, draft);
        sent := Some(Flow.Payload(patient, finalResponses));
        loading := false;
        step := Complete;
      }
    }
  }
}
