# QuizBowl in Dafny

A model of the console quiz game in `QuizBowl.java`, with proofs about it. The game reads a
question file made of three question kinds: true/false (TF), multiple choice (MC) and short
answer (SA). It asks how many questions to play, shuffles the list and plays that many. Each
answer gains or loses the question's points; typing `SKIP` in any case skips the question.

Modules follow the program's structure:

- `Wrappers`: `Option`.
- `Text`: the `java.lang.String` operations the game relies on. These are `toLowerCase`,
  `toUpperCase`, `equalsIgnoreCase` (the per-character rule of `regionMatches`), `trim`
  (its two index loops) and `split(" ")` (leading empty pieces kept, trailing ones dropped,
  a string without a space returned whole).
- `Numbers`: Java `int` as `Int32`, with the wrap-around of `+` and unary `-` (`Wrap32`).
  Also `Integer.parseInt` (an optional sign, ASCII digits, the int range) and the decimal
  writer `Integer.toString`. The writer is used only to state round trips: `parseInt` reads
  back what it writes.
- `Questions`: the question variants as one datatype. Constructors normalise the answer:
  lower case for TF/SA, upper case for MC. Also covers `getPointValue`, `checkAnswer`, the
  answer shown after a wrong response, and `displayQuestion` with its `char` label counter.
- `Loader`: the line grammar of `loadQuestions` as functions over the file's lines, reading
  until the lines run out or a block fails. It also has a writer of the same grammar, which
  states what a well-formed file reads back as.
- `Game`: one pass of `getValidQuestionCount`, reordering by a supplied permutation, how a
  response is judged, and what the turns add up to.
- `Seqs`: three identities of sequence concatenation. They model nothing in the game and
  serve only as proof aids.
- `Session`: the classes whose fields the program updates in place.
  - `Player`: its `score` is changed by `UpdateScore`.
  - `QuizBowl`: its `questions` list is appended to by `LoadQuestions`.
  - The Java loops (reading blocks, collecting MC choices, playing turns) are methods with
    loop invariants. Each is proved to compute what the `Loader` and `Game` functions specify.

The scanner over the file is modelled as the sequence of lines it has not yet returned. A
`nextLine` past the end is the `MissingLine` failure. A header that splits into fewer than two
pieces is `MissingField`: `meta[1]` is missing, or, for a header of spaces only (no pieces at
all), `meta[0]` is too. A failed `parseInt` is `NotANumber`. Like the `catch` in the Java, a
failure ends loading and keeps the questions already appended.

In these places the model follows the code as written:

- After a wrong response the program shows the stored answer, which the constructor has
  already lower-cased or upper-cased. It does not show the text as written in the file.
- Point values are not checked to be positive. Any int is accepted, zero and negatives included.
- A block whose kind is neither TF, MC nor SA is not an error. It takes exactly two lines
  (header and text), adds no question, and is still counted.
- An MC choice count of zero or less is accepted. The `for` loop then reads no choice lines.
- A failure part-way through the file does not discard the questions read before it. The
  count-mismatch warning is printed only when loading ends without a failure.

## Model

| member | source | states |
|---|---|---|
| Text.LowerChars | QuizBowl.java:29 | `toLowerCase` maps each position on its own through the ASCII lower-case map, keeping the length |
| Text.UpperChars | QuizBowl.java:51 | `toUpperCase` maps each position through the ASCII upper-case map, keeping the length |
| Text.Lower | QuizBowl.java:29 | `toLowerCase`, one character at a time: keeps the length; the per-position ASCII lower-case map is `Text.LowerChars` |
| Text.Upper | QuizBowl.java:51 | `toUpperCase`, one character at a time: keeps the length; the per-position ASCII upper-case map is `Text.UpperChars` |
| Text.LowerIdempotent | QuizBowl.java:29 | lower-casing the already lower-cased answer changes nothing |
| Text.UpperIdempotent | QuizBowl.java:51 | upper-casing the already upper-cased letter changes nothing |
| Text.CharsMatchIffLower | QuizBowl.java:205 | two characters match under the ignore-case rule exactly when their lower-case forms are equal |
| Text.CharsMatchIffUpper | QuizBowl.java:205 | two characters match under the ignore-case rule exactly when their upper-case forms are equal |
| Text.CharsMatchIgnoringCase | QuizBowl.java:205 | definition: the per-character test of `regionMatches` with case ignored; `Text.CharsMatchIffLower` and `Text.CharsMatchIffUpper` characterise it |
| Text.EqualsIgnoreCase | QuizBowl.java:205 | definition: same length and every position matches ignoring case; `Text.EqualsIgnoreCaseIffLowerEqual` and `Text.EqualsIgnoreCaseIffUpperEqual` characterise it |
| Text.EqualsIgnoreCaseIffLowerEqual | QuizBowl.java:205 | `equalsIgnoreCase` holds exactly when the lower-cased strings are equal, both directions |
| Text.EqualsIgnoreCaseIffUpperEqual | QuizBowl.java:205 | `equalsIgnoreCase` holds exactly when the upper-cased strings are equal, both directions |
| Text.SkipFront | QuizBowl.java:203 | trim's forward loop stops between its start and the end |
| Text.SkipBack | QuizBowl.java:203 | trim's backward loop stops between the front stop and the end |
| Text.End | QuizBowl.java:203 | the end trim keeps lies between the first kept character and the string's length |
| Text.SkipFrontStops | QuizBowl.java:203 | every character the forward loop passes is padding, and it stops on a non-padding character unless it reached the end |
| Text.SkipBackStops | QuizBowl.java:203 | every character the backward loop passes is padding, and it stops after a non-padding character unless it reached the front stop |
| Text.SkipFrontIs | QuizBowl.java:203 | the forward loop stops exactly at the first non-padding character |
| Text.SkipBackIs | QuizBowl.java:203 | the backward loop stops exactly past the last non-padding character |
| Text.TrimShape | QuizBowl.java:203 | trim keeps a slice with only padding around it; the result is empty iff the string is all padding, and otherwise neither starts nor ends with padding |
| Text.Trim | QuizBowl.java:203 | definition of `trim` as the slice between its two loops' stops; `Text.TrimShape`, `Text.TrimUnpadded` and `Text.TrimStripsPadding` state what it returns |
| Text.TrimUnpadded | QuizBowl.java:149 | a string with no padding at either end is left unchanged by trim (the header count a writer produces) |
| Text.TrimStripsPadding | QuizBowl.java:186 | trim removes exactly the padding added around a string that has none at its ends |
| Text.Fields | QuizBowl.java:153 | the pieces between single spaces hold no space, and joined with single spaces give back the line |
| Text.DropTrailingEmpty | QuizBowl.java:153 | drops exactly the trailing empty pieces: the result is a prefix, does not end in an empty piece, and only empty pieces are removed |
| Text.Split | QuizBowl.java:153 | `split(" ")` returns a space-free line whole, and otherwise the pieces between spaces with the trailing empty ones dropped |
| Text.FieldsOfSpaceFree | QuizBowl.java:153 | a string without spaces is a single piece |
| Text.FieldsAfterWord | QuizBowl.java:153 | a space-free word, a space and the rest split into the word followed by the rest's pieces |
| Text.SplitTwoWords | QuizBowl.java:153 | a header written as two non-empty words with one space splits into exactly those two words |
| Numbers.Wrap32 | QuizBowl.java:102 | the int a Java sum evaluates to is the mathematical value when that value is in the int range |
| Numbers.WrapCongruent | QuizBowl.java:102 | the wrapped value differs from the mathematical value by a multiple of 2^32 |
| Numbers.CongruentInt32sAreEqual | QuizBowl.java:102 | two ints congruent modulo 2^32 are equal |
| Numbers.CongruentShift | QuizBowl.java:102 | values congruent modulo 2^32 wrap to the same int |
| Numbers.WrapOfSum | QuizBowl.java:102 | adding two ints with wrap-around gives the mathematical sum wrapped once |
| Numbers.WrapAfterAdd | QuizBowl.java:102 | adding to a running int score and wrapping is wrapping the unwrapped running total |
| Numbers.WrapOfNegatedSum | QuizBowl.java:215 | `score + (-points)`, where the negation wraps too, is the mathematical difference wrapped once |
| Numbers.ParseInt | QuizBowl.java:149 | `parseInt` succeeds only on an optional sign followed by digits, the value in the int range |
| Numbers.NatToString | QuizBowl.java:149 | the writer side of the header round trip: the decimal digits of an int's magnitude, non-empty, digits only, no leading zero |
| Numbers.IntToString | QuizBowl.java:149 | the writer side of the header round trip: the decimal form of an int, with no space, a digit or '-' first and a digit last |
| Numbers.DigitsValueOfNatToString | QuizBowl.java:149 | the value of the digits written for n is n |
| Numbers.ParseIntOfIntToString | QuizBowl.java:149 | `parseInt` reads back every int the decimal writer writes |
| Numbers.ParseIntOfDigits | QuizBowl.java:155 | `parseInt` of digits, bare or after '+' or '-' (leading zeros allowed), gives the digits' value, negated after '-', when it lies in the int range, and fails when it does not |
| Numbers.ParseIntRejectsNonDigit | QuizBowl.java:188 | `parseInt` rejects any string with a character other than a leading sign and digits |
| Questions.NewTF | QuizBowl.java:27-30 | keeps text and points, stores the answer lower-cased and equal to the given one ignoring case |
| Questions.NewMC | QuizBowl.java:48-52 | keeps text, points and the choices in order, stores the letter upper-cased and equal to the given one ignoring case |
| Questions.NewSA | QuizBowl.java:74-77 | keeps text and points, stores the answer lower-cased and equal to the given one ignoring case |
| Questions.PointValue | QuizBowl.java:15-17 | definition of `getPointValue`: the stored points; `Questions.NewTF`, `Questions.NewMC` and `Questions.NewSA` state that these are the constructor's argument |
| Questions.CheckAnswer | QuizBowl.java:33-35 | definition of `checkAnswer` for all three kinds (also 55-57 and 80-82); `Questions.CheckAnswerIgnoresCase` and the `CheckNew` lemmas state what it accepts |
| Questions.CorrectAnswerText | QuizBowl.java:214 | definition: the stored answer of whichever kind; `Questions.ShownAnswerIsNormalForm` states what it is |
| Questions.CheckAnswerIgnoresCase | QuizBowl.java:33-35 | for every constructed question of any kind, `checkAnswer` is `equalsIgnoreCase` against the stored answer |
| Questions.CheckNewTF | QuizBowl.java:33-35 | a TF question accepts exactly the responses equal to the file's answer ignoring case |
| Questions.CheckNewMC | QuizBowl.java:55-57 | an MC question accepts exactly the responses equal to the file's letter ignoring case |
| Questions.CheckNewSA | QuizBowl.java:80-82 | an SA question accepts exactly the responses equal to the file's answer ignoring case |
| Questions.CheckAnswerCaseBlind | QuizBowl.java:33-35 | responses differing only in case get the same verdict on every kind |
| Questions.CheckMCIgnoresChoices | QuizBowl.java:55-57 | an MC verdict depends on the letter only, never on the choice texts |
| Questions.ShownAnswerIsNormalForm | QuizBowl.java:214 | the answer shown after a wrong response is the normalised stored answer and is itself accepted |
| Questions.Label | QuizBowl.java:62-65 | the label of choice i is a 16-bit char code |
| Questions.LabelNext | QuizBowl.java:65 | the next label is the current one incremented with 16-bit `char` wrap-around |
| Questions.Heading | QuizBowl.java:38-87 | definition: the first line every `displayQuestion` prints, "Question: " and the text, with " (true/false)" after it for TF only; `Questions.Prompt` puts it first |
| Questions.Prompt | QuizBowl.java:38-87 | definition of the three `displayQuestion`s: the heading (with the "(true/false)" hint for TF), then for MC only one labelled line per choice, in list order; `Questions.Display` is proved to produce it |
| Questions.Display | QuizBowl.java:38-87 | `displayQuestion` of each kind, the MC one as its loop with the char counter: produces exactly the prompt lines |
| Questions.LabelsAreLetters | QuizBowl.java:62-65 | the first 26 choices are labelled 'A' to 'Z' in order, and no two of the first 65536 share a label |
| Questions.ChoiceShownUnderLetter | QuizBowl.java:63-65 | on a constructed MC question, choice i (i < 26) is shown under letter 'A' + i |
| Questions.AnswerByLabel | QuizBowl.java:55-57 | typing the letter of choice i, upper or lower case, is correct exactly when the file's letter names that choice |
| Loader.ReadBlock | QuizBowl.java:153-155 | a block that is read takes at least two lines and never more than remain |
| Loader.ReadBody | QuizBowl.java:156-172 | the lines after the header take at least two lines and never more than remain |
| Loader.ReadChoices | QuizBowl.java:162-168 | an MC block takes at least four lines and never more than remain |
| Loader.ReadBlockShape | QuizBowl.java:153-172 | a block adds no question iff its kind is unknown, taking then two lines; otherwise a normalised question of that kind with the header's points and the next line as text, taking 3 lines for TF/SA and, for MC, 4 plus the passes the trimmed count line asks for; MC choices are the lines after the count; the stored answer is the block's last line lower-cased (TF, SA) or upper-cased (MC) |
| Loader.ReadChoicesShape | QuizBowl.java:162-168 | an MC block is read exactly when its count line is there, is an int after trimming, and is followed by as many choice lines as the for loop makes passes and the letter; a read block takes 4 plus that many lines, keeps the choice lines in order and the letter upper-cased; an unread one fails as not a number exactly when the count line is there but does not parse, and for want of a line otherwise |
| Loader.BlockFails | QuizBowl.java:153-162 | a header of fewer than two pieces fails with a missing field, points that are not an int fail whatever the kind (parsed before the kind test), and an MC count line that is not an int fails |
| Loader.BlockReads | QuizBowl.java:153-172 | for a header whose points parse, exactly when the block is read: TF and SA need the answer line, MC a count line that parses and the lines it asks for, an unknown kind only the text line (so headers such as `TF 010`, `TF +10` or `SA 5 extra` are read); a block that is not read fails as not a number exactly when it is MC with a bad count line, and for want of a line otherwise |
| Loader.ReadBlocks | QuizBowl.java:152-174 | definition of the while loop: one block after another until the lines run out or one fails; `Loader.ReadBlocksTruncated`, `Loader.ReadWrittenBlocks` and `Session.QuizBowl.ReadAllBlocks` state what it reads |
| Loader.Passes | QuizBowl.java:164 | definition: the passes of `for (int i = 0; i < n; i++)`, none when n is not positive; `Session.CollectChoices` is proved to read that many lines |
| Loader.Warns | QuizBowl.java:175-177 | definition: the warning is printed when loading ended without a failure and the count differs from the declared number; `Loader.LoadWritten` states when it appears |
| Loader.Present | QuizBowl.java:158-173 | never more questions than blocks, and as many iff no block had an unknown kind |
| Loader.Load | QuizBowl.java:147-181 | never more questions than counted blocks; a failed header gives no questions and a failure |
| Loader.HeaderFails | QuizBowl.java:148-149 | an empty file, or one whose first line is not an int after trimming, loads no questions and reports the failure with no declared count |
| Loader.PresentConcat | QuizBowl.java:158-173 | the questions of consecutive runs of blocks are the concatenation of theirs |
| Loader.AllRead | QuizBowl.java:158-173 | definition: a run of blocks that each added one question, in order |
| Loader.PresentAllRead | QuizBowl.java:158-173 | blocks that all added a question give back exactly those questions |
| Loader.ReadChoicesTruncated | QuizBowl.java:162-168 | an MC block reads the same from a prefix that still holds it, and fails on one that does not |
| Loader.ReadBodyTruncated | QuizBowl.java:156-172 | the block body reads the same from a prefix that still holds it, and fails on one that does not |
| Loader.ReadBlockTruncated | QuizBowl.java:153-172 | a block reads the same from a prefix of the lines that still holds it whole, and fails on one that does not |
| Loader.ReadBlocksTruncated | QuizBowl.java:152-174 | the blocks read from a prefix of the lines are a prefix of the blocks read from all of them |
| Loader.PresentOfPrefix | QuizBowl.java:158-173 | a prefix of the blocks adds a prefix of the questions |
| Loader.LoadTruncated | QuizBowl.java:147-181 | losing the end of the file never changes or reorders the questions read before the cut |
| Loader.BlockLines | QuizBowl.java:153-171 | a written block takes exactly the lines its kind takes in the grammar |
| Loader.Normalise | QuizBowl.java:160-171 | the question the constructors build from a question's fields is normalised |
| Loader.NormaliseAll | QuizBowl.java:160-171 | definition: every question normalised, in order |
| Loader.ReadWrittenBlock | QuizBowl.java:153-172 | a written block reads back as its question, normalised, using exactly its lines, whatever follows |
| Loader.ReadWrittenChoices | QuizBowl.java:162-168 | the body of a written MC block reads back its choices, in order, and its letter |
| Loader.AroundChoices | QuizBowl.java:162-167 | where the count, the choices and the letter of an MC block sit among the lines |
| Loader.AllReadCons | QuizBowl.java:158-173 | the blocks of a non-empty list are its first question followed by the blocks of the rest |
| Loader.ReadBlocksAfterRead | QuizBowl.java:152-174 | after a block that was read, reading goes on from the line past the block |
| Loader.ReadWrittenBlocks | QuizBowl.java:152-174 | written blocks followed by any lines read back as their questions, in order, followed by whatever those lines read as; only those lines can fail |
| Loader.LoadAfterHeader | QuizBowl.java:149 | a header written as an int is read back as the declared count, and blocks are read from the next line |
| Loader.LoadAfterWritten | QuizBowl.java:147-180 | after a header and written blocks, the written questions come first and the remaining lines alone decide what follows and whether loading fails |
| Loader.LoadWritten | QuizBowl.java:147-177 | a written file reads back as its questions, normalised and in order, one counted block each, no failure; the warning appears iff the header declares another number |
| Loader.WrittenBody | QuizBowl.java:152-174 | the written blocks alone read back as their questions with no failure |
| Loader.ReadUnknownBlock | QuizBowl.java:153-172 | a block of unknown kind takes exactly two lines and adds nothing |
| Loader.UnknownKindCounted | QuizBowl.java:158-176 | an unknown-kind block between written blocks adds no question but is counted, and the blocks after it are read as usual |
| Loader.AppendedLinesKeepQuestions | QuizBowl.java:152-180 | lines appended to a written file, whatever they hold, never lose or reorder the written questions |
| Game.CheckSelection | QuizBowl.java:186-192 | an input is accepted iff it parses to a count in 1..max; a number out of range is "too many"; input that does not parse is "not valid", both directions |
| Game.ValidCount | QuizBowl.java:189 | definition of the check `num > 0 && num <= maxQuestions`; `Game.CheckSelection` and `Game.SelectionOfNumber` state which inputs pass it |
| Game.SelectionOfNumber | QuizBowl.java:186-190 | a decimal int with any padding around it is accepted exactly when it is a valid count, otherwise too many, never not valid |
| Game.SelectionOfNonNumber | QuizBowl.java:191-192 | input with a non-digit after trimming, other than a leading sign, is not valid whatever the maximum |
| Game.Identity | QuizBowl.java:141 | the identity order is a permutation |
| Game.Shuffled | QuizBowl.java:141 | reordering keeps the length |
| Game.ShuffledByIdentity | QuizBowl.java:141 | the identity order keeps the list as loaded |
| Game.WithoutLast | QuizBowl.java:141 | a permutation without its last entry, with indices closed up, is a permutation of one fewer |
| Game.ShuffledSplit | QuizBowl.java:141 | a reordering is the reordering of the rest followed by the element the last position takes |
| Game.ShuffledIsPermutation | QuizBowl.java:141 | reordering never adds, drops or duplicates a question |
| Game.Judgements | QuizBowl.java:198-216 | definition of a session's turns: turn i is the judgement of question i on response line i; `Session.PlayTurns` is proved to compute it |
| Game.IsSkip | QuizBowl.java:205 | definition: the trimmed response equals SKIP ignoring case; `Game.SkipInAnyCase` states its effect |
| Game.Judge | QuizBowl.java:203-216 | definition of one turn; `Game.SkipInAnyCase`, `Game.AnsweredTurn` and `Game.DeltaWithinPoints` state what it gives, and `Session.PlayTurn` is proved to compute it |
| Game.Delta | QuizBowl.java:209-215 | definition of a turn's change: 0, +points or -points; `Game.AnsweredTurn` states it for every response |
| Game.Total | QuizBowl.java:198-216 | definition of the signed sum of the turns in order; `Game.TotalOfConcat`, `Session.TotalAppend` and `Game.TotalWithinStake` state its properties |
| Game.SkipInAnyCase | QuizBowl.java:205-207 | a response that trims to SKIP in any case skips whatever the question, moving the score by 0 |
| Game.AnsweredTurn | QuizBowl.java:209-216 | any other response moves the score by +points when `checkAnswer` accepts the trimmed response and by -points otherwise |
| Game.SkipsTotalNothing | QuizBowl.java:205-207 | turns that are all skips add up to nothing |
| Game.AllSkipsScoreNothing | QuizBowl.java:197-217 | a session in which every response is a skip leaves the score unchanged |
| Game.TotalOfConcat | QuizBowl.java:198 | playing a list in two parts scores the sum of the parts |
| Game.DeltaWithinPoints | QuizBowl.java:209-216 | one turn never moves the score by more than its question's point value |
| Game.TotalBounded | QuizBowl.java:198-216 | turns each bounded by their question's points move the score by at most the stake (sum of magnitudes) |
| Game.JudgementsWithinPoints | QuizBowl.java:198-216 | every turn of a session stays within its question's point value |
| Game.TotalWithinStake | QuizBowl.java:197-217 | the session total stays within the stake, and while the stake fits an int the running int score from 0 is the exact signed sum |
| Session.Player.constructor | QuizBowl.java:95-99 | a new player keeps both names and starts at score 0 |
| Session.Player.UpdateScore | QuizBowl.java:101-103 | the score becomes the old score plus points, with int wrap-around |
| Session.ReadNextBlock | QuizBowl.java:153-155 | one pass of the loop body reads the block at the front of the unread lines as `ReadBlock` specifies, failing on a missing field or a bad number |
| Session.ReadNextBody | QuizBowl.java:156-172 | reads the text and the kind's remaining lines as `ReadBody` specifies |
| Session.ReadNextChoices | QuizBowl.java:162-168 | reads the count, the choice lines and the letter as `ReadChoices` specifies |
| Session.CollectChoices | QuizBowl.java:163-166 | the for loop succeeds iff enough lines remain for its passes (none for a count of 0 or less), returning exactly those lines in order |
| Session.QuizBowl.constructor | QuizBowl.java:122-125 | a new quiz has no questions and no player |
| Session.QuizBowl.Register | QuizBowl.java:132 | the new player has the two names and score 0, and the list is untouched |
| Session.QuizBowl.LoadQuestions | QuizBowl.java:147-181 | the list gains exactly the questions `Load` reads, in file order, also when a failure ends loading; the report and whether the warning is printed are `Load`'s |
| Session.QuizBowl.ReadAllBlocks | QuizBowl.java:152-174 | the while loop appends the questions of `ReadBlocks`, counts every block read and returns its failure |
| Session.QuizBowl.Shuffle | QuizBowl.java:141 | the list is reordered by the supplied permutation, and multiset-equal to the old list |
| Session.QuizBowl.PlayGame | QuizBowl.java:197-217 | the turns are the judgements of the first n questions on their response lines, and the score moves by their signed total, wrapped |
| Session.PlayTurns | QuizBowl.java:198-217 | the loop judges question k on response k for every k < n and the score ends at the start score plus the total, wrapped |
| Session.PlayNext | QuizBowl.java:198-216 | one more pass keeps the loop's record: the next turn is judged on the next question and the score includes it |
| Session.PlayTurn | QuizBowl.java:199-216 | one pass gives the turn `Judge` specifies, and the score moves by its change with int wrap-around |
| Session.FailedBlock | QuizBowl.java:178-180 | a failed block ends reading with its failure and nothing more added |
| Session.ReadOn | QuizBowl.java:152-174 | after a block that was read, the loop's record moves past its lines |
| Session.ReadFails | QuizBowl.java:178-180 | a failing block completes the record with that failure |
| Session.HeaderRead | QuizBowl.java:149 | with a header that parses, loading is reading the blocks after it |
| Session.PresentAppend | QuizBowl.java:160-171 | one more block appends its question, if any, to the list |
| Session.JudgedStep | QuizBowl.java:198-216 | the record of judged turns extends by the next judgement |
| Session.JudgementsPointwise | QuizBowl.java:198-216 | turns judged one by one, in order, are the judgements of the questions played |
| Session.ScoreStep | QuizBowl.java:212-215 | the running score after one more turn is the start plus the total so far, wrapped |
| Session.TotalAppend | QuizBowl.java:198 | one more turn adds its change to the total |

## Left out

- Console and file I/O: prompts, messages, `start()` wiring, `displayFinalScore` and the text of exception messages. The file's lines and the player's input lines are parameters.
- Opening the file: a missing file (`FileNotFoundException`) is not modelled, because the lines are given.
- The retry loop of `getValidQuestionCount`: only one pass is modelled (`Game.CheckSelection`), because the loop never ends when no input is valid (always so when no question was loaded).
- The randomness of `Collections.shuffle`: the shuffle takes a supplied permutation. The model does not state uniformity.
- Unicode: case mapping, `trim` and digits are the ASCII rules. Java's full Unicode case tables and non-ASCII digits in `parseInt` are not modelled.
- Session.Player.GetScore: carries no contract. It returns the `score` field, whose updates `Session.Player.UpdateScore` states.
- Session.QuizBowl.PlayGame: requires as many response lines as questions to play, because running out of console input is not modelled. It also requires numQuestions at most the list size, which `getValidQuestionCount` guarantees.
- Loader.Load: the block count is unbounded (`nat`). The Java `int` count would wrap only after 2^31 blocks.
- Loader.ReadBlock: its own contract only bounds the lines a block takes (at least two, never more than remain). What a read block holds is stated by `Loader.ReadBlockShape`, the header failures by `Loader.BlockFails`, and exactly when a block is read, with the error of one that is not, by `Loader.BlockReads`.
- Loader.ReadBody: its own contract only bounds the lines it takes. What it reads is stated through `Loader.ReadBlockShape`.
- Loader.ReadChoices: its own contract only bounds the lines it takes (at least four). When it reads, how many choice lines it takes, what it stores and how it fails are stated by `Loader.ReadChoicesShape`.
- Questions.Label: labels are kept as 16-bit codes, not as `char`, so codes in the surrogate range need no special case.
