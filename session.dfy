/** The objects of a quiz session: the Player whose score playGame updates in place, and
    the QuizBowl holding the question list that loadQuestions appends to. The loops here
    are the Java loops, each proved to compute what the functions of Loader and Game
    specify. */
module Session {
  import opened Wrappers
  import opened Text
  import opened Numbers
  import opened Questions
  import opened Loader
  import opened Game
  import opened Seqs

  /** A player: a name and a running int score. */
  class Player {
    const firstName: string
    const lastName: string
    var score: Int32

    /** A new player starts with no points. */
    constructor (firstName: string, lastName: string)
      ensures this.firstName == firstName && this.lastName == lastName
      ensures score == 0
    {
      this.firstName := firstName;
      this.lastName := lastName;
      score := 0;
    }

    /** updateScore: adds points to the score with Java int wrap-around. */
    method UpdateScore(points: Int32)
      modifies this
      ensures score == Wrap32(old(score) + points)
    {
      score := Wrap32(score + points);
    }

    /** getScore. */
    function GetScore(): Int32
      reads this
    {
      score
    }
  }

  /** One pass of the loadQuestions loop body, the statement-by-statement counterpart of the
      function ReadBlock that specifies it. The scanner is modelled by the lines it has not
      yet returned; the block is read from their front. */
  method ReadNextBlock(input: seq<string>) returns (step: Step)
    requires input != []
    ensures step == ReadBlock(input)
  {
    var meta := Split(input[0]);
    if |meta| < 2 {
      return Fail(MissingField);
    }
    var parsed := ParseInt(meta[1]);
    if parsed.None? {
      return Fail(NotANumber);
    }
    step := ReadNextBody(input, meta[0], parsed.value);
  }

  /** The lines after the block header, by kind: the statement-by-statement counterpart of
      the function ReadBody, in the Java branch order. */
  method ReadNextBody(input: seq<string>, kind: string, points: Int32) returns (step: Step)
    requires input != []
    ensures step == ReadBody(kind, points, input)
  {
    if |input| < 2 {
      return Fail(MissingLine);
    }
    var text := input[1];
    if kind == "TF" {
      if |input| < 3 {
        return Fail(MissingLine);
      }
      return Read(Some(NewTF(text, points, input[2])), 3);
    } else if kind == "MC" {
      step := ReadNextChoices(input, points);
    } else if kind == "SA" {
      if |input| < 3 {
        return Fail(MissingLine);
      }
      return Read(Some(NewSA(text, points, input[2])), 3);
    } else {
      return Read(None, 2);
    }
  }

  /** The rest of a multiple-choice block: the choice count, the for loop that collects
      the choice lines, and the answer letter, as ReadChoices reads them. */
  method ReadNextChoices(input: seq<string>, points: Int32) returns (step: Step)
    requires |input| >= 2
    ensures step == ReadChoices(points, input)
  {
    if |input| < 3 {
      return Fail(MissingLine);
    }
    var given := ParseInt(Trim(input[2]));
    if given.None? {
      return Fail(NotANumber);
    }
    var choices := CollectChoices(input, 3, given.value);
    if choices.None? {
      return Fail(MissingLine);
    }
    var cursor := 3 + |choices.value|;
    if cursor >= |input| {
      return Fail(MissingLine);
    }
    return Read(Some(NewMC(input[1], points, choices.value, input[cursor])), cursor + 1);
  }

  /** The for loop of a multiple-choice block: reads numChoices lines from line start on
      (none when numChoices is not positive), or runs out of lines. */
  method CollectChoices(lines: seq<string>, start: nat, numChoices: Int32) returns (choices: Option<seq<string>>)
    requires start <= |lines|
    ensures choices.Some? <==> start + Passes(numChoices) <= |lines|
    ensures choices.Some? ==> choices.value == lines[start..start + Passes(numChoices)]
  {
    var found: seq<string> := [];
    var cursor := start;
    var i := 0;
    while i < numChoices
      invariant 0 <= i <= Passes(numChoices)
      invariant cursor == start + i <= |lines|
      invariant found == lines[start..cursor]
    {
      if cursor >= |lines| {
        return None;
      }
      found := found + [lines[cursor]];
      cursor := cursor + 1;
      i := i + 1;
    }
    return Some(found);
  }

  /** The quiz: the question list and the registered player. */
  class QuizBowl {
    var questions: seq<Question>
    var player: Player?

    /** A new quiz has no questions and no player yet. */
    constructor ()
      ensures questions == [] && player == null
    {
      questions := [];
      player := null;
    }

    /** The player start() creates from the two names read. */
    method Register(firstName: string, lastName: string)
      modifies this
      ensures player != null && fresh(player)
      ensures player.firstName == firstName && player.lastName == lastName && player.score == 0
      ensures questions == old(questions)
    {
      player := new Player(firstName, lastName);
    }

    /** loadQuestions over the lines of the file: the questions read are appended to the
        list, in file order, and also kept when a failure ends loading; warned says whether
        the count-mismatch warning was printed. */
    method LoadQuestions(lines: seq<string>) returns (report: Report, warned: bool)
      modifies this
      ensures questions == old(questions) + Load(lines).questions
      ensures report == Load(lines).report
      ensures warned == Warns(report)
      ensures player == old(player)
    {
      if |lines| == 0 {
        return Report(None, 0, Some(MissingLine)), false;
      }
      var header := ParseInt(Trim(lines[0]));
      if header.None? {
        return Report(None, 0, Some(NotANumber)), false;
      }
      var declared := header.value;
      HeaderRead(lines, declared);
      var count, error := ReadAllBlocks(lines[1..]);
      report := Report(Some(declared), count, error);
      warned := error.None? && count != declared;
    }

    /** The while loop of loadQuestions: reads blocks until the lines run out or one fails,
        appending each question read to the list at once, so that a failure keeps them; it
        counts every block read, unknown kinds included. */
    method ReadAllBlocks(input: seq<string>) returns (count: nat, error: Option<LoadError>)
      modifies this
      ensures questions == old(questions) + Present(ReadBlocks(input).read)
      ensures count == |ReadBlocks(input).read| && error == ReadBlocks(input).error
      ensures player == old(player)
    {
      var rest := input;
      count := 0;
      ghost var done: seq<Option<Question>> := [];
      ghost var all := ReadBlocks(input);
      AppendEmpty(all.read);
      while rest != []
        invariant count == |done|
        invariant questions == old(questions) + Present(done)
        invariant player == old(player)
        invariant all == Blocks(done + ReadBlocks(rest).read, ReadBlocks(rest).error)
        decreases |rest|
      {
        var step := ReadNextBlock(rest);
        match step
        case Fail(e) =>
          ReadFails(all, done, rest);
          return count, Some(e);
        case Read(q, used) =>
          ReadOn(all, done, rest, q, used);
          PresentAppend(old(questions), done, q);
          if q.Some? {
            questions := questions + [q.value];
          }
          done := done + [q];
          count := count + 1;
          rest := rest[used..];
      }
      AppendEmpty(done);
      return count, None;
    }

    /** The reordering start() applies before play, given as the order it picked; no
        question is added, dropped or duplicated. */
    method Shuffle(order: seq<int>)
      requires IsPermutation(order, |questions|)
      modifies this
      ensures questions == Shuffled(old(questions), order)
      ensures multiset(questions) == multiset(old(questions))
      ensures player == old(player)
    {
      ShuffledIsPermutation(questions, order);
      questions := Shuffled(questions, order);
    }

    /** playGame: the first numQuestions questions in list order, each judged on the
        player's response line for it; the score ends moved by the signed sum of the turns,
        with int wrap-around, and the list is left as it was. */
    method PlayGame(numQuestions: nat, responses: seq<string>) returns (turns: seq<Turn>)
      requires player != null
      requires numQuestions <= |questions| && numQuestions <= |responses|
      modifies player
      ensures turns == Judgements(questions[..numQuestions], responses[..numQuestions])
      ensures player.score == Wrap32(old(player.score) + Total(turns))
    {
      turns := PlayTurns(player, questions, responses, numQuestions);
      JudgementsPointwise(questions, responses, numQuestions, turns);
    }
  }

  /** The loop of playGame: the first n questions in order, each judged on its response
      line, the player's score moved by each turn as it is played. */
  method PlayTurns(player: Player, qs: seq<Question>, responses: seq<string>, n: nat) returns (turns: seq<Turn>)
    requires n <= |qs| && n <= |responses|
    modifies player
    ensures |turns| == n && forall k {:trigger turns[k]} :: 0 <= k < n ==> turns[k] == Judge(qs[k], responses[k])
    ensures player.score == Wrap32(old(player.score) + Total(turns))
  {
    var start := player.score;
    turns := [];
    var i := 0;
    while i < n
      invariant 0 <= i <= n && |turns| == i
      invariant forall k {:trigger turns[k]} :: 0 <= k < i ==> turns[k] == Judge(qs[k], responses[k])
      invariant player.score == Wrap32(old(player.score) + Total(turns))
    {
      turns := PlayNext(player, qs, responses, start, turns);
      i := i + 1;
    }
  }

  /** The loop's record after one more pass: the next turn is judged on the next question
      and added to the score. */
  method PlayNext(player: Player, qs: seq<Question>, responses: seq<string>, start: Int32, turns: seq<Turn>)
    returns (next: seq<Turn>)
    requires |turns| < |qs| && |turns| < |responses|
    requires forall k {:trigger turns[k]} :: 0 <= k < |turns| ==> turns[k] == Judge(qs[k], responses[k])
    requires player.score == Wrap32(start + Total(turns))
    modifies player
    ensures |next| == |turns| + 1
    ensures forall k {:trigger next[k]} :: 0 <= k < |next| ==> next[k] == Judge(qs[k], responses[k])
    ensures player.score == Wrap32(start + Total(next))
  {
    ghost var before := player.score;
    var i := |turns|;
    var turn := PlayTurn(player, qs[i], responses[i]);
    ScoreStep(start, turns, turn, before, player.score);
    JudgedStep(qs, responses, i, turns, turn);
    next := turns + [turn];
  }

  /** One pass of the playGame loop: the trimmed response skips when it is SKIP in any
      case, and otherwise gains or loses the point value as checkAnswer decides; Java's
      unary minus and int addition wrap. */
  method PlayTurn(player: Player, q: Question, line: string) returns (turn: Turn)
    modifies player
    ensures turn == Judge(q, line)
    ensures player.score == Wrap32(old(player.score) + Delta(turn))
  {
    var answer := Trim(line);
    if EqualsIgnoreCase(answer, "SKIP") {
      turn := Skipped;
    } else if CheckAnswer(q, answer) {
      player.UpdateScore(PointValue(q));
      turn := Correct(PointValue(q));
    } else {
      WrapOfNegatedSum(player.score, PointValue(q));
      player.UpdateScore(Wrap32(-(PointValue(q) as int)));
      turn := Incorrect(CorrectAnswerText(q), PointValue(q));
    }
  }

  /** A failed block ends reading with nothing more added. */
  lemma FailedBlock(ls: seq<string>)
    requires ls != [] && ReadBlock(ls).Fail?
    ensures ReadBlocks(ls) == Blocks([], Some(ReadBlock(ls).error))
  {
  }

  /** The loadQuestions loop's record: all the blocks after the header line are the
      blocks read so far followed by the blocks of the lines not yet returned. After a
      block that was read, the record moves past its lines. */
  lemma ReadOn(all: Blocks, done: seq<Option<Question>>, input: seq<string>, q: Option<Question>, used: nat)
    requires input != [] && ReadBlock(input) == Read(q, used)
    requires all == Blocks(done + ReadBlocks(input).read, ReadBlocks(input).error)
    ensures used <= |input|
    ensures all == Blocks((done + [q]) + ReadBlocks(input[used..]).read, ReadBlocks(input[used..]).error)
  {
    ReadBlocksAfterRead(input);
    ConsAppend(done, q, ReadBlocks(input[used..]).read);
  }

  /** A block that fails completes the record with its failure. */
  lemma ReadFails(all: Blocks, done: seq<Option<Question>>, input: seq<string>)
    requires input != [] && ReadBlock(input).Fail?
    requires all == Blocks(done + ReadBlocks(input).read, ReadBlocks(input).error)
    ensures all == Blocks(done, Some(ReadBlock(input).error))
  {
    FailedBlock(input);
    AppendEmpty(done);
  }

  /** With a header that parses, loading is the reading of the blocks after it. */
  lemma HeaderRead(lines: seq<string>, declared: Int32)
    requires |lines| >= 1 && ParseInt(Trim(lines[0])) == Some(declared)
    ensures Load(lines).questions == Present(ReadBlocks(lines[1..]).read)
    ensures Load(lines).report == Report(Some(declared), |ReadBlocks(lines[1..]).read|, ReadBlocks(lines[1..]).error)
  {
  }

  /** Appending the question of one more block, if it has one, to the list. */
  lemma PresentAppend(base: seq<Question>, done: seq<Option<Question>>, q: Option<Question>)
    ensures q.None? ==> base + Present(done + [q]) == base + Present(done)
    ensures q.Some? ==> base + Present(done + [q]) == (base + Present(done)) + [q.value]
  {
    PresentConcat(done, [q]);
    assert Present([q]) == Added(q) + Present([]);
  }

  /** One more turn judged on the next question and response. */
  lemma JudgedStep(qs: seq<Question>, ls: seq<string>, i: nat, ts: seq<Turn>, t: Turn)
    requires i < |qs| && i < |ls| && |ts| == i
    requires forall k :: 0 <= k < i ==> ts[k] == Judge(qs[k], ls[k])
    requires t == Judge(qs[i], ls[i])
    ensures forall k :: 0 <= k < i + 1 ==> (ts + [t])[k] == Judge(qs[k], ls[k])
  {
  }

  /** Turns judged one by one, in order, are the judgements of the questions played. */
  lemma JudgementsPointwise(qs: seq<Question>, ls: seq<string>, n: nat, ts: seq<Turn>)
    requires n <= |qs| && n <= |ls| && |ts| == n
    requires forall k :: 0 <= k < n ==> ts[k] == Judge(qs[k], ls[k])
    ensures ts == Judgements(qs[..n], ls[..n])
  {
  }

  /** The running score after one more turn is the start score plus the total of the
      turns so far and that turn, wrapped. */
  lemma ScoreStep(start: int, ts: seq<Turn>, t: Turn, before: int, after: int)
    requires before == Wrap32(start + Total(ts))
    requires after == Wrap32(before + Delta(t))
    ensures after == Wrap32(start + Total(ts + [t]))
  {
    var sum := start + Total(ts);
    WrapAfterAdd(sum, Delta(t));
    TotalAppend(ts, t);
    assert sum + Delta(t) == start + Total(ts + [t]);
  }

  lemma TotalAppend(ts: seq<Turn>, t: Turn)
    ensures Total(ts + [t]) == Total(ts) + Delta(t)
  {
    assert (ts + [t])[..|ts|] == ts;
  }
}
