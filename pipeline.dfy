/** `format_question`: the stages chained on one question and its answer. */
module Pipeline {
  import opened Text
  import Patterns
  import BlankDetector
  import Register
  import Cleaner
  import BlankFormatter
  import AnswerFormatter

  /** The instruction put in front of a question that has blanks. */
  const Instruction := "以下の記述の空欄に適切な語句を記入せよ。\n"

  /** The dictionary `format_question` returns. */
  datatype Formatted = Formatted(question: string, answer: string, blankCount: nat)

  /** The question text after normalising, converting and cleaning, before
      the blanks are rendered. */
  function Cleaned(question: string): string {
    Cleaner.CleanText(Register.Converted(BlankDetector.NormalizedBlanks(question)))
  }

  /** `format_question(question_text, answer_text)`: the answer always starts
      with `正解：`; a question with blanks starts with the instruction; one
      without is the cleaned text and keeps every guarantee of `clean_text`. */
  function FormattedQuestion(question: string, answer: string): (r: Formatted)
    ensures |r.answer| >= 3 && r.answer[..3] == AnswerFormatter.Prefix
    ensures r.blankCount > 0 ==>
      |r.question| >= |Instruction| && r.question[..|Instruction|] == Instruction
    ensures r.blankCount == 0 ==> r.question == Cleaned(question)
    ensures r.blankCount == 0 ==> Trimmed(r.question) && '　' !in r.question
    ensures r.blankCount == 0 ==> NoPair(r.question, ' ', ' ')
    ensures r.blankCount == 0 ==> '，' !in r.question && '．' !in r.question
    ensures r.blankCount == 0 ==>
      NoPair(r.question, '、', '、') && NoPair(r.question, '。', '。')
  {
    var count := Count(BlankDetector.NormalizedBlanks(question), Patterns.Marker);
    var formatted := BlankFormatter.FormattedBlanks(Cleaned(question), count);
    var q := if count > 0 then Instruction + formatted else formatted;
    Formatted(q, AnswerFormatter.FormattedAnswer(answer, count), count)
  }

  /** `format_question`, calling each stage in turn. */
  method FormatQuestion(question: string, answer: string) returns (r: Formatted)
    ensures r == FormattedQuestion(question, answer)
  {
    var normalized := BlankDetector.NormalizeBlanks(question);
    var count := Count(normalized, Patterns.Marker);
    var converted := Register.ConvertDesuMasu(normalized);
    var cleaned := Cleaner.CleanText(converted);
    var formatted := BlankFormatter.FormatBlanks(cleaned, count);
    if count > 0 {
      formatted := Instruction + formatted;
    }
    var formattedAnswer := AnswerFormatter.FormatAnswer(answer, count);
    r := Formatted(formatted, formattedAnswer, count);
  }

  /** The count is that of the markers right after `normalize_blanks`, and
      the same count decides how the answer is formatted. */
  lemma SameCount(question: string, answer: string)
    ensures FormattedQuestion(question, answer).blankCount
      == Count(BlankDetector.NormalizedBlanks(question), Patterns.Marker)
    ensures FormattedQuestion(question, answer).answer
      == AnswerFormatter.FormattedAnswer(answer, FormattedQuestion(question, answer).blankCount)
  {
  }

  /** The question is the instruction followed by the rendered text exactly
      when there are blanks; otherwise it is the rendered text alone. */
  lemma InstructionIff(question: string, answer: string)
    ensures var r := FormattedQuestion(question, answer);
      var rendered := BlankFormatter.FormattedBlanks(Cleaned(question), r.blankCount);
      (r.blankCount > 0 <==> r.question == Instruction + rendered) &&
      (r.blankCount == 0 <==> r.question == rendered)
  {
    var r := FormattedQuestion(question, answer);
    var rendered := BlankFormatter.FormattedBlanks(Cleaned(question), r.blankCount);
    assert |Instruction + rendered| != |rendered|;
  }

  /** A question without blanks comes out cleaned and without the
      instruction. */
  lemma NoBlankQuestion(question: string, answer: string)
    requires Count(BlankDetector.NormalizedBlanks(question), Patterns.Marker) == 0
    ensures FormattedQuestion(question, answer).question == Cleaned(question)
    ensures FormattedQuestion(question, answer).answer
      == AnswerFormatter.Prefix + Strip(answer)
  {
    AnswerFormatter.NoBlankAnswer(answer);
  }

  /** A question with no blank idiom, no standalone letter, no protected
      term and no marker or placeholder already in it gets no blank and no
      instruction. */
  lemma PlainQuestion(question: string, answer: string)
    requires BlankDetector.Untouched(question) && Count(question, Patterns.Marker) == 0
    ensures FormattedQuestion(question, answer).blankCount == 0
    ensures FormattedQuestion(question, answer).question
      == Cleaner.CleanText(Register.Converted(question))
  {
    BlankDetector.UntouchedNormalized(question);
  }
}
