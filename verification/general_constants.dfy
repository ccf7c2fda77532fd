/** The configuration the page is built from: the question pool, the empty patient context and the number of questions asked. */
module GeneralConstants {
  import opened Types
  import opened Helpers

  const QuestionsPool: seq<QuestionItem> := [
    QuestionItem(1, "Do you have any known allergies to medications, food, or environmental factors?"),
    QuestionItem(2, "Please describe your main symptom and when it started."),
    QuestionItem(3, "Have you experienced fever or chills in the last 48 hours?"),
    QuestionItem(4, "Are you currently taking any prescription medications, over-the-counter drugs, or supplements?"),
    QuestionItem(5, "Have you recently traveled outside the country or been in contact with anyone who has been sick?"),
    QuestionItem(6, "On a scale of 1 to 10 (1 being minimal, 10 being severe), how would you rate your current pain level?"),
    QuestionItem(7, "Do you have a history of chronic conditions like diabetes, high blood pressure, or heart disease?"),
    QuestionItem(8, "Have you had any recent surgeries or hospitalizations?"),
    QuestionItem(9, "Do you smoke or consume alcohol regularly?"),
    QuestionItem(10, "Are you pregnant or is there any chance you might be?")
  ]

  const InitialPatientContext: PatientContext := PatientContext("", "", "")

  const NumQuestions: int := 5

  /** The pool holds ten questions whose ids run 1 to 10 in order; ids are therefore distinct. */
  lemma PoolIds()
    ensures |QuestionsPool| == 10
    ensures forall i :: 0 <= i < |QuestionsPool| ==> QuestionsPool[i].id == i + 1
    ensures DistinctIds(QuestionsPool)
  {
  }

  /** No question text appears twice in the pool. */
  lemma PoolTextsDistinct()
    ensures forall i, j :: 0 <= i < j < |QuestionsPool| ==> QuestionsPool[i].text != QuestionsPool[j].text
  {
    var p := QuestionsPool;
    // Questions are told apart by their first characters and their lengths.
    forall i, j | 0 <= i < j < |p|
      ensures p[i].text != p[j].text
    {
      var a, b := p[i].text, p[j].text;
      assert |a| != |b| || a[0] != b[0] || a[4] != b[4] || a[12] != b[12];
    }
  }

  /**
   * The configured count is positive and below the pool size, so selection
   * takes the slicing branch: five questions from distinct pool positions,
   * with distinct ids, every one of them from the pool.
   */
  lemma ConfiguredSelection(perm: seq<nat>)
    requires IsPermutation(perm, |QuestionsPool|)
    ensures 0 < NumQuestions < |QuestionsPool|
    ensures var r := SelectRandomQuestions(QuestionsPool, NumQuestions, perm);
      && |r| == 5
      && DistinctIds(r)
      && multiset(r) <= multiset(QuestionsPool)
      && (forall q :: q in r ==> q in QuestionsPool)
  {
    PoolIds();
    SelectionIdsDistinct(QuestionsPool, NumQuestions, perm);
  }
}
