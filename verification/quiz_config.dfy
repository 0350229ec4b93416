/** The quiz's fixed configuration: difficulty tiers, their per-question
    time limits, and the shape of a sampled question. */
module QuizConfig {

  /** The three tiers, named as in the source (easy, medium, hard). */
  datatype Difficulty = Mudah | Sedang | Sulit

  /** Number of questions requested per quiz; also the length of the
      per-question answer arrays. */
  const QuestionsPerQuiz: nat := 10

  /** Seconds allowed per question for a tier: 20, 30 and 45, so a harder
      tier always allows more time. */
  function TimeLimit(d: Difficulty): (t: nat)
    ensures d == Mudah ==> t == 20
    ensures d == Sedang ==> t == 30
    ensures d == Sulit ==> t == 45
  {
    match d
    case Mudah => 20
    case Sedang => 30
    case Sulit => 45
  }

  /** A question as the session uses it: the text, emoji and explanation
      are display-only and left out. */
  datatype Question = Question(id: int, difficulty: Difficulty, options: seq<string>, correctIndex: int)

  /** What the sampler promises for tier `d`: between one and
      `QuestionsPerQuiz` questions, all of that tier, no question twice, and
      every correct index pointing at one of its options. */
  predicate ValidSample(qs: seq<Question>, d: Difficulty) {
    && 1 <= |qs| <= QuestionsPerQuiz
    && (forall i :: 0 <= i < |qs| ==> qs[i].difficulty == d && 0 <= qs[i].correctIndex < |qs[i].options|)
    && (forall i, j :: 0 <= i < j < |qs| ==> qs[i].id != qs[j].id)
  }
}
