/** The three question kinds of the quiz (true/false, multiple choice, short answer): how
    each is built, checks a response, shows its correct answer and displays itself. */
module Questions {
  import opened Text
  import opened Numbers

  /** One question; the kinds share the text and the point value. The stored answer is
      whatever the constructor functions below put there. */
  datatype Question =
    | TF(text: string, points: Int32, answer: string)
    | MC(text: string, points: Int32, choices: seq<string>, answer: string)
    | SA(text: string, points: Int32, answer: string)

  /** The form the constructors store the answer in: lower case for true/false and short
      answer, upper case (a letter) for multiple choice. */
  predicate IsNormalised(q: Question) {
    if q.MC? then Upper(q.answer) == q.answer else Lower(q.answer) == q.answer
  }

  /** QuestionTF's constructor: stores the answer lower-cased. */
  function NewTF(text: string, points: Int32, answer: string): (q: Question)
    ensures q.TF? && q.text == text && q.points == points
    ensures IsNormalised(q) && EqualsIgnoreCase(q.answer, answer)
  {
    LowerIdempotent(answer);
    EqualsIgnoreCaseIffLowerEqual(Lower(answer), answer);
    TF(text, points, Lower(answer))
  }

  /** QuestionMC's constructor: keeps the choices in order, stores the letter upper-cased. */
  function NewMC(text: string, points: Int32, choices: seq<string>, answer: string): (q: Question)
    ensures q.MC? && q.text == text && q.points == points && q.choices == choices
    ensures IsNormalised(q) && EqualsIgnoreCase(q.answer, answer)
  {
    UpperIdempotent(answer);
    EqualsIgnoreCaseIffUpperEqual(Upper(answer), answer);
    MC(text, points, choices, Upper(answer))
  }

  /** QuestionSA's constructor: stores the answer lower-cased. */
  function NewSA(text: string, points: Int32, answer: string): (q: Question)
    ensures q.SA? && q.text == text && q.points == points
    ensures IsNormalised(q) && EqualsIgnoreCase(q.answer, answer)
  {
    LowerIdempotent(answer);
    EqualsIgnoreCaseIffLowerEqual(Lower(answer), answer);
    SA(text, points, Lower(answer))
  }

  /** getPointValue. */
  function PointValue(q: Question): Int32 {
    q.points
  }

  /** checkAnswer: the stored answer equals the response lower-cased (true/false and short
      answer) or upper-cased (multiple choice). */
  predicate CheckAnswer(q: Question, response: string) {
    if q.MC? then q.answer == Upper(response) else q.answer == Lower(response)
  }

  /** The answer printed after a wrong response: the stored, normalised answer. */
  function CorrectAnswerText(q: Question): string {
    q.answer
  }

  /** For a question as the constructors build it, checkAnswer is equalsIgnoreCase
      against the stored answer. */
  lemma CheckAnswerIgnoresCase(q: Question, response: string)
    requires IsNormalised(q)
    ensures CheckAnswer(q, response) <==> EqualsIgnoreCase(response, q.answer)
  {
    if q.MC? {
      EqualsIgnoreCaseIffUpperEqual(response, q.answer);
    } else {
      EqualsIgnoreCaseIffLowerEqual(response, q.answer);
    }
  }

  /** A true/false question accepts exactly the responses equal to the answer in the
      file, ignoring the case of both. */
  lemma CheckNewTF(text: string, points: Int32, answer: string, response: string)
    ensures CheckAnswer(NewTF(text, points, answer), response) <==> EqualsIgnoreCase(response, answer)
    ensures CheckAnswer(NewTF(text, points, answer), response) <==> Lower(response) == Lower(answer)
  {
    EqualsIgnoreCaseIffLowerEqual(response, answer);
    LowerIdempotent(answer);
  }

  /** A short-answer question accepts exactly the responses equal to the answer in the
      file, ignoring the case of both. */
  lemma CheckNewSA(text: string, points: Int32, answer: string, response: string)
    ensures CheckAnswer(NewSA(text, points, answer), response) <==> EqualsIgnoreCase(response, answer)
    ensures CheckAnswer(NewSA(text, points, answer), response) <==> Lower(response) == Lower(answer)
  {
    EqualsIgnoreCaseIffLowerEqual(response, answer);
    LowerIdempotent(answer);
  }

  /** A multiple-choice question accepts exactly the responses equal to the letter in the
      file, ignoring the case of both. */
  lemma CheckNewMC(text: string, points: Int32, choices: seq<string>, letter: string, response: string)
    ensures CheckAnswer(NewMC(text, points, choices, letter), response) <==> EqualsIgnoreCase(response, letter)
    ensures CheckAnswer(NewMC(text, points, choices, letter), response) <==> Upper(response) == Upper(letter)
  {
    EqualsIgnoreCaseIffUpperEqual(response, letter);
    UpperIdempotent(letter);
  }

  /** Responses that differ only in case get the same verdict, whatever the question. */
  lemma CheckAnswerCaseBlind(q: Question, a: string, b: string)
    requires EqualsIgnoreCase(a, b)
    ensures CheckAnswer(q, a) == CheckAnswer(q, b)
  {
    EqualsIgnoreCaseIffLowerEqual(a, b);
    EqualsIgnoreCaseIffUpperEqual(a, b);
  }

  /** A multiple-choice verdict depends on the letter only: not on the choices, the text
      or the points. */
  lemma CheckMCIgnoresChoices(q1: Question, q2: Question, response: string)
    requires q1.MC? && q2.MC? && q1.answer == q2.answer
    ensures CheckAnswer(q1, response) == CheckAnswer(q2, response)
  {
  }

  /** The answer shown after a wrong response is the constructor's normal form of the
      answer in the file, and that text would itself have been accepted. */
  lemma ShownAnswerIsNormalForm(q: Question)
    requires IsNormalised(q)
    ensures CheckAnswer(q, CorrectAnswerText(q))
    ensures q.MC? ==> CorrectAnswerText(q) == Upper(q.answer)
    ensures !q.MC? ==> CorrectAnswerText(q) == Lower(q.answer)
  {
  }

  /** One line of a displayed question: plain text, or a choice with its label, the
      code being the 16-bit Java char code of the label printed before ") ". */
  datatype PromptLine = Line(text: string) | Choice(code: int, choice: string)

  /** The char code the display loop holds for the i-th choice: 'A' incremented i times,
      wrapping as a Java char does. */
  function Label(i: nat): (c: int)
    ensures 0 <= c < 0x1_0000
  {
    ('A' as int + i) % 0x1_0000
  }

  lemma LabelNext(i: nat)
    ensures Label(i + 1) == (Label(i) + 1) % 0x1_0000
  {
    var a := 'A' as int + i;
    var k := a / 0x1_0000;
    assert a == k * 0x1_0000 + a % 0x1_0000;
    assert a + 1 == k * 0x1_0000 + (a % 0x1_0000 + 1);
  }

  function Heading(q: Question): string {
    if q.TF? then "Question: " + q.text + " (true/false)" else "Question: " + q.text
  }

  /** displayQuestion: the heading, then for multiple choice one labelled line per choice
      in list order. */
  function Prompt(q: Question): (r: seq<PromptLine>)
    ensures |r| == if q.MC? then 1 + |q.choices| else 1
    ensures r[0] == Line(Heading(q))
    ensures q.MC? ==> forall i :: 0 <= i < |q.choices| ==> r[i + 1] == Choice(Label(i), q.choices[i])
  {
    if q.MC? then
      [Line(Heading(q))] + seq(|q.choices|, i requires 0 <= i < |q.choices| => Choice(Label(i), q.choices[i]))
    else [Line(Heading(q))]
  }

  /** displayQuestion as the loop it is: a char counter starting at 'A', incremented
      after each choice. */
  method Display(q: Question) returns (lines: seq<PromptLine>)
    ensures lines == Prompt(q)
  {
    lines := [Line(Heading(q))];
    if q.MC? {
      var option := 'A' as int;
      var i := 0;
      while i < |q.choices|
        invariant 0 <= i <= |q.choices|
        invariant option == Label(i)
        invariant |lines| == 1 + i && lines[0] == Line(Heading(q))
        invariant forall k :: 0 <= k < i ==> lines[k + 1] == Choice(Label(k), q.choices[k])
      {
        lines := lines + [Choice(option, q.choices[i])];
        LabelNext(i);
        option := (option + 1) % 0x1_0000;
        i := i + 1;
      }
    }
  }

  /** The first 26 choices are labelled 'A' to 'Z' in order, and no two of the first
      65536 choices share a label. */
  lemma LabelsAreLetters(i: nat, j: nat)
    requires i < j < 0x1_0000
    ensures i < 26 ==> Label(i) == 'A' as int + i && 'A' <= ('A' as int + i) as char <= 'Z'
    ensures Label(i) != Label(j)
  {
  }

  /** On a multiple-choice question with at most 26 choices, choice i is shown under the
      letter 'A' + i ... */
  lemma ChoiceShownUnderLetter(text: string, points: Int32, choices: seq<string>, letter: string, i: nat)
    requires i < |choices| && i < 26
    ensures Prompt(NewMC(text, points, choices, letter))[i + 1] == Choice('A' as int + i, choices[i])
  {
  }

  /** ... and typing that letter, in either case, is correct exactly when the letter in the
      file names choice i. */
  lemma AnswerByLabel(text: string, points: Int32, choices: seq<string>, letter: string, i: nat)
    requires i < 26
    ensures CheckAnswer(NewMC(text, points, choices, letter), [('A' as int + i) as char])
      <==> Upper(letter) == [('A' as int + i) as char]
    ensures CheckAnswer(NewMC(text, points, choices, letter), [('a' as int + i) as char])
      <==> Upper(letter) == [('A' as int + i) as char]
  {
    var upper := ('A' as int + i) as char;
    var lower := ('a' as int + i) as char;
    assert Upper([upper]) == [upper];
    assert Upper([lower]) == [upper];
  }
}
