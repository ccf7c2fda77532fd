/** The records and the step enumeration shared by the page, the helpers and the constants. */
module Types {
  /** The wizard's steps; which view is rendered is decided by this value alone. */
  datatype Step = Consent | PersonalInfo | MedicalQuestions | Saving | Complete | Denied

  /** The identity fields collected on the personal-information step (`dob` meant as dd/mm/yyyy). */
  datatype PatientContext = PatientContext(name: string, dob: string, gender: string)

  /** One candidate screening question of the fixed pool. */
  datatype QuestionItem = QuestionItem(id: int, text: string)

  /** The answer recorded for one selected question. */
  datatype QuestionResponse = QuestionResponse(question: string, answer: string)
}
