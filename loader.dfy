/** The question-file grammar read by QuizBowl.loadQuestions, as functions over the file's
    lines: a header line with the declared count, then blocks of
      "<kind> <points>", question text, and
        for TF and SA: the answer;
        for MC: the number of choices, that many choice lines, the answer letter.
    Loading stops at the first failure and keeps the questions read before it. A writer
    for the same grammar states what a well-formed file reads back as. */
module Loader {
  import opened Wrappers
  import opened Text
  import opened Numbers
  import opened Questions
  import opened Seqs

  /** Why loading stopped early: a nextLine past the last line, meta[0] or meta[1] missing
      from the split block header, or a parseInt that failed. */
  datatype LoadError = MissingLine | MissingField | NotANumber

  /** The outcome of reading one block: the question it adds (none for an unknown kind)
      and the number of lines it took, or the failure that ends loading. */
  datatype Step = Read(question: Option<Question>, used: nat) | Fail(error: LoadError)

  /** The lines a block of question q takes in the file. */
  function LineCount(q: Question): nat {
    if q.MC? then 4 + |q.choices| else 3
  }

  /** One pass of the loop body of loadQuestions over the lines still unread: split the
      block header at spaces, parse the points, then read the rest by kind. */
  function ReadBlock(ls: seq<string>): (r: Step)
    requires ls != []
    ensures r.Read? ==> 2 <= r.used <= |ls|
  {
    var meta := Split(ls[0]);
    if |meta| < 2 then Fail(MissingField)
    else match ParseInt(meta[1])
      case None => Fail(NotANumber)
      case Some(points) => ReadBody(meta[0], points, ls)
  }

  /** The lines after the block header: the question text, then what its kind asks for. An
      unknown kind reads nothing more. */
  function ReadBody(kind: string, points: Int32, ls: seq<string>): (r: Step)
    requires ls != []
    ensures r.Read? ==> 2 <= r.used <= |ls|
  {
    if |ls| < 2 then Fail(MissingLine)
    else if kind == "TF" || kind == "SA" then
      if |ls| < 3 then Fail(MissingLine)
      else Read(Some(if kind == "TF" then NewTF(ls[1], points, ls[2]) else NewSA(ls[1], points, ls[2])), 3)
    else if kind == "MC" then ReadChoices(points, ls)
    else Read(None, 2)
  }

  /** The passes a loop `for (int i = 0; i < n; i++)` makes: none when n is not positive. */
  function Passes(n: Int32): nat {
    if n < 0 then 0 else n as int
  }

  /** The rest of a multiple-choice block: the trimmed choice count, that many choice
      lines (none when the count is not positive, as the for loop runs no pass), then
      the answer letter. */
  function ReadChoices(points: Int32, ls: seq<string>): (r: Step)
    requires |ls| >= 2
    ensures r.Read? ==> 4 <= r.used <= |ls|
  {
    if |ls| < 3 then Fail(MissingLine)
    else match ParseInt(Trim(ls[2]))
      case None => Fail(NotANumber)
      case Some(numChoices) =>
        var m := Passes(numChoices);
        if |ls| < 4 + m then Fail(MissingLine)
        else Read(Some(NewMC(ls[1], points, ls[3..3 + m], ls[3 + m])), 4 + m)
  }

  /** What reading one block gives: a block of unknown kind takes two lines and adds
      nothing; any other block that is read adds a question of its kind, normalised, with
      the block's points and second line as its text, taking exactly the lines its kind
      takes (for multiple choice, four plus the passes the trimmed count line asks for); a
      multiple-choice question's choices are the lines after the count, and the
      stored answer is the block's last line, upper-cased for multiple choice and
      lower-cased otherwise. */
  lemma ReadBlockShape(ls: seq<string>)
    requires ls != [] && ReadBlock(ls).Read?
    ensures var r := ReadBlock(ls);
      var kind := Split(ls[0])[0];
      (r.question.None? <==> kind != "TF" && kind != "MC" && kind != "SA")
      && (r.question.None? ==> r.used == 2)
      && (r.question.Some? ==>
            r.used == LineCount(r.question.value) && r.question.value.text == ls[1]
            && Some(r.question.value.points) == ParseInt(Split(ls[0])[1])
            && KindTag(r.question.value) == kind && IsNormalised(r.question.value))
      && (r.question.Some? && r.question.value.MC? ==> r.question.value.choices == ls[3..r.used - 1])
      && (r.question.Some? && !r.question.value.MC? ==> r.question.value.answer == Lower(ls[2]))
      && (r.question.Some? && r.question.value.MC? ==> r.question.value.answer == Upper(ls[r.used - 1]))
      && (r.question.Some? && r.question.value.MC? ==>
            |ls| >= 3 && ParseInt(Trim(ls[2])).Some? && r.used == 4 + Passes(ParseInt(Trim(ls[2])).value))
  {
  }

  /** The rest of a multiple-choice block: it is read exactly when the count line is there,
      is an int after trimming, and is followed by as many choice lines as the for loop
      makes passes and the letter. A block that is read takes 4 plus that many lines, keeps
      the choice lines in order and stores the letter upper-cased; one that is not read
      fails as not a number exactly when the count line is there but does not parse, and
      for want of a line otherwise. */
  lemma ReadChoicesShape(points: Int32, ls: seq<string>)
    requires |ls| >= 2
    ensures var r := ReadChoices(points, ls);
      var count := if |ls| >= 3 then ParseInt(Trim(ls[2])) else None;
      (r.Read? <==> count.Some? && |ls| >= 4 + Passes(count.value))
      && (r.Read? ==>
            r.used == 4 + Passes(count.value) && r.question.Some? && r.question.value.MC?
            && r.question.value.text == ls[1] && r.question.value.points == points
            && |r.question.value.choices| == Passes(count.value)
            && r.question.value.choices == ls[3..r.used - 1]
            && r.question.value.answer == Upper(ls[r.used - 1]))
      && (r.Fail? ==> (r.error == NotANumber <==> count.None? && |ls| >= 3) && r.error != MissingField)
  {
  }

  /** The ways a block fails before its kind matters: a header of fewer than two pieces, and
      points that are not an int, whatever the kind; and, for multiple choice, a count line
      that is not an int after trimming. */
  lemma BlockFails(ls: seq<string>)
    requires ls != []
    ensures |Split(ls[0])| < 2 ==> ReadBlock(ls) == Fail(MissingField)
    ensures |Split(ls[0])| >= 2 && ParseInt(Split(ls[0])[1]).None? ==> ReadBlock(ls) == Fail(NotANumber)
    ensures (|Split(ls[0])| >= 2 && ParseInt(Split(ls[0])[1]).Some? && Split(ls[0])[0] == "MC"
             && |ls| >= 3 && ParseInt(Trim(ls[2])).None?) ==> ReadBlock(ls) == Fail(NotANumber)
  {
  }

  /** When a block whose header parses is read: a TF or SA block needs its answer line, an
      MC block a count line that parses and the lines that count asks for, and a block of
      unknown kind only its text line. Such a block that is not read fails as not a number
      exactly when it is an MC block whose count line does not parse, and for want of a
      line otherwise. */
  lemma BlockReads(ls: seq<string>)
    requires ls != [] && |Split(ls[0])| >= 2 && ParseInt(Split(ls[0])[1]).Some?
    ensures var kind := Split(ls[0])[0];
      ReadBlock(ls).Read? <==>
        if kind == "TF" || kind == "SA" then |ls| >= 3
        else if kind == "MC" then
          |ls| >= 3 && ParseInt(Trim(ls[2])).Some? && |ls| >= 4 + Passes(ParseInt(Trim(ls[2])).value)
        else |ls| >= 2
    ensures var kind := Split(ls[0])[0];
      ReadBlock(ls).Fail? ==>
        ReadBlock(ls).error
          == if kind == "MC" && |ls| >= 3 && ParseInt(Trim(ls[2])).None? then NotANumber else MissingLine
  {
  }

  /** The blocks read in file order, each with the question it added if any, and the
      failure that stopped reading, if one did. */
  datatype Blocks = Blocks(read: seq<Option<Question>>, error: Option<LoadError>)

  /** The while loop of loadQuestions: blocks until the lines run out or one fails. */
  function ReadBlocks(ls: seq<string>): Blocks
    decreases |ls|
  {
    if ls == [] then Blocks([], None)
    else match ReadBlock(ls)
      case Fail(e) => Blocks([], Some(e))
      case Read(q, used) =>
        var rest := ReadBlocks(ls[used..]);
        Blocks([q] + rest.read, rest.error)
  }

  /** The questions the blocks added, in order. There are never more questions than
      blocks, and as many exactly when no block had an unknown kind. */
  function Present(bs: seq<Option<Question>>): (r: seq<Question>)
    ensures |r| <= |bs|
    ensures |r| == |bs| <==> forall i :: 0 <= i < |bs| ==> bs[i].Some?
  {
    if bs == [] then []
    else
      assert forall i :: 1 <= i < |bs| ==> bs[i] == bs[1..][i - 1];
      Added(bs[0]) + Present(bs[1..])
  }

  /** The question one block added: a list of zero or one. */
  function Added(b: Option<Question>): seq<Question> {
    if b.Some? then [b.value] else []
  }

  /** What loadQuestions reports besides the questions: the declared count from the header
      (absent when the header itself failed), the number of blocks read (the Java count),
      and the failure that ended loading, if any. */
  datatype Report = Report(declared: Option<Int32>, count: nat, error: Option<LoadError>)

  /** The count-mismatch warning: printed only when loading ended without a failure. */
  predicate Warns(r: Report) {
    r.error.None? && r.declared.Some? && r.count != r.declared.value
  }

  datatype Loaded = Loaded(questions: seq<Question>, report: Report)

  /** loadQuestions over the lines of the file. */
  function Load(lines: seq<string>): (r: Loaded)
    ensures |r.questions| <= r.report.count
    ensures r.report.declared.None? ==> r.questions == [] && r.report.error.Some?
  {
    if lines == [] then Loaded([], Report(None, 0, Some(MissingLine)))
    else match ParseInt(Trim(lines[0]))
      case None => Loaded([], Report(None, 0, Some(NotANumber)))
      case Some(declared) =>
        var b := ReadBlocks(lines[1..]);
        Loaded(Present(b.read), Report(Some(declared), |b.read|, b.error))
  }

  /** A file that is empty, or whose first line is not an int after trimming, loads nothing
      and reports the failure with no declared count. */
  lemma HeaderFails(lines: seq<string>)
    ensures lines == [] ==> Load(lines) == Loaded([], Report(None, 0, Some(MissingLine)))
    ensures lines != [] && ParseInt(Trim(lines[0])).None? ==> Load(lines) == Loaded([], Report(None, 0, Some(NotANumber)))
  {
  }

  lemma {:induction false} PresentConcat(a: seq<Option<Question>>, b: seq<Option<Question>>)
    ensures Present(a + b) == Present(a) + Present(b)
  {
    if a == [] {
      assert a + b == b;
    } else {
      assert (a + b)[0] == a[0] && (a + b)[1..] == a[1..] + b;
      assert Present(a + b) == Added(a[0]) + Present(a[1..] + b);
      assert Present(a) == Added(a[0]) + Present(a[1..]);
      PresentConcat(a[1..], b);
    }
  }

  /** Blocks that all added a question. */
  function AllRead(qs: seq<Question>): (r: seq<Option<Question>>)
    ensures |r| == |qs| && forall i :: 0 <= i < |qs| ==> r[i] == Some(qs[i])
  {
    seq(|qs|, i requires 0 <= i < |qs| => Some(qs[i]))
  }

  lemma {:induction false} PresentAllRead(qs: seq<Question>)
    ensures Present(AllRead(qs)) == qs
  {
    if qs != [] {
      assert AllRead(qs)[1..] == AllRead(qs[1..]);
      PresentAllRead(qs[1..]);
    }
  }

  // ---------------------------------------------------------------------------------
  // Truncation: a file cut short loses at most the blocks after the cut.

  lemma ReadChoicesTruncated(points: Int32, ls: seq<string>, k: nat)
    requires 2 <= k <= |ls|
    ensures var r := ReadChoices(points, ls);
      if r.Read? && r.used <= k then ReadChoices(points, ls[..k]) == r
      else ReadChoices(points, ls[..k]).Fail?
  {
    var t := ls[..k];
    assert t[1] == ls[1];
    assert k > 2 ==> t[2] == ls[2];
    var r := ReadChoices(points, ls);
    if r.Read? && r.used <= k {
      assert t[3..r.used - 1] == ls[3..r.used - 1];
      assert t[r.used - 1] == ls[r.used - 1];
    }
  }

  lemma ReadBodyTruncated(kind: string, points: Int32, ls: seq<string>, k: nat)
    requires 0 < k <= |ls|
    ensures var r := ReadBody(kind, points, ls);
      if r.Read? && r.used <= k then ReadBody(kind, points, ls[..k]) == r
      else ReadBody(kind, points, ls[..k]).Fail?
  {
    var t := ls[..k];
    if k >= 2 {
      assert t[1] == ls[1];
      assert k > 2 ==> t[2] == ls[2];
      if kind == "MC" {
        ReadChoicesTruncated(points, ls, k);
      }
    }
  }

  /** A block reads the same from a prefix of the lines that still holds it whole, and
      fails on a prefix that does not. */
  lemma ReadBlockTruncated(ls: seq<string>, k: nat)
    requires 0 < k <= |ls|
    ensures var r := ReadBlock(ls);
      if r.Read? && r.used <= k then ReadBlock(ls[..k]) == r else ReadBlock(ls[..k]).Fail?
  {
    assert ls[..k][0] == ls[0];
    var meta := Split(ls[0]);
    if |meta| >= 2 && ParseInt(meta[1]).Some? {
      ReadBodyTruncated(meta[0], ParseInt(meta[1]).value, ls, k);
    }
  }

  lemma {:induction false} ReadBlocksTruncated(ls: seq<string>, k: nat)
    requires k <= |ls|
    ensures ReadBlocks(ls[..k]).read <= ReadBlocks(ls).read
    decreases |ls|
  {
    if k > 0 {
      ReadBlockTruncated(ls, k);
      var r := ReadBlock(ls);
      if r.Read? && r.used <= k {
        assert ls[..k][r.used..] == ls[r.used..][..k - r.used];
        ReadBlocksTruncated(ls[r.used..], k - r.used);
      }
    }
  }

  lemma PresentOfPrefix(a: seq<Option<Question>>, b: seq<Option<Question>>)
    requires a <= b
    ensures Present(a) <= Present(b)
  {
    assert b == a + b[|a|..];
    PresentConcat(a, b[|a|..]);
  }

  /** Losing the end of the file never changes or reorders the questions read before
      the cut: the questions of any prefix of the lines are a prefix of the questions. */
  lemma LoadTruncated(lines: seq<string>, k: nat)
    requires k <= |lines|
    ensures Load(lines[..k]).questions <= Load(lines).questions
  {
    if k > 0 {
      assert lines[..k][0] == lines[0];
      assert lines[..k][1..] == lines[1..][..k - 1];
      ReadBlocksTruncated(lines[1..], k - 1);
      PresentOfPrefix(ReadBlocks(lines[1..][..k - 1]).read, ReadBlocks(lines[1..]).read);
    }
  }

  // ---------------------------------------------------------------------------------
  // The writer: the file text a list of questions is stored as.

  function KindTag(q: Question): string {
    if q.TF? then "TF" else if q.MC? then "MC" else "SA"
  }

  /** A question the grammar can express: the number of choices must fit an int. */
  predicate Writable(q: Question) {
    q.MC? ==> |q.choices| <= INT_MAX
  }

  /** The block that stores q. */
  function BlockLines(q: Question): (r: seq<string>)
    requires Writable(q)
    ensures |r| == LineCount(q)
  {
    var header := KindTag(q) + " " + IntToString(q.points);
    if q.MC? then [header, q.text, IntToString(|q.choices|)] + q.choices + [q.answer]
    else [header, q.text, q.answer]
  }

  function WriteBlocks(qs: seq<Question>): seq<string>
    requires forall i :: 0 <= i < |qs| ==> Writable(qs[i])
  {
    if qs == [] then [] else BlockLines(qs[0]) + WriteBlocks(qs[1..])
  }

  /** The question the constructors build from q's fields. */
  function Normalise(q: Question): (r: Question)
    ensures IsNormalised(r)
  {
    match q
    case TF(text, points, answer) => NewTF(text, points, answer)
    case MC(text, points, choices, answer) => NewMC(text, points, choices, answer)
    case SA(text, points, answer) => NewSA(text, points, answer)
  }

  function NormaliseAll(qs: seq<Question>): (r: seq<Question>)
    ensures |r| == |qs| && forall i :: 0 <= i < |qs| ==> r[i] == Normalise(qs[i])
  {
    seq(|qs|, i requires 0 <= i < |qs| => Normalise(qs[i]))
  }

  /** A written block reads back as its question, normalised, using exactly its lines,
      whatever follows it. */
  lemma ReadWrittenBlock(q: Question, rest: seq<string>)
    requires Writable(q)
    ensures ReadBlock(BlockLines(q) + rest) == Read(Some(Normalise(q)), LineCount(q))
  {
    var ls := BlockLines(q) + rest;
    var tag, points := KindTag(q), IntToString(q.points);
    assert ls[0] == tag + " " + points;
    SplitTwoWords(tag, points);
    ParseIntOfIntToString(q.points);
    assert ReadBlock(ls) == ReadBody(tag, q.points, ls);
    if q.MC? {
      ReadWrittenChoices(q, rest);
    } else {
      assert ls[1] == q.text && ls[2] == q.answer;
    }
  }

  /** The part of a written multiple-choice block after its header reads back as the
      question, normalised. */
  lemma ReadWrittenChoices(q: Question, rest: seq<string>)
    requires q.MC? && Writable(q)
    ensures ReadChoices(q.points, BlockLines(q) + rest) == Read(Some(Normalise(q)), LineCount(q))
  {
    var m := |q.choices|;
    var head := [KindTag(q) + " " + IntToString(q.points), q.text, IntToString(m)];
    assert BlockLines(q) == head + q.choices + [q.answer];
    AroundChoices(head, q.choices, q.answer, rest);
    TrimUnpadded(IntToString(m));
    ParseIntOfIntToString(m);
  }

  /** Where the parts of a multiple-choice block sit among the lines. */
  lemma AroundChoices<T>(head: seq<T>, choices: seq<T>, answer: T, rest: seq<T>)
    requires |head| == 3
    ensures var ls := head + choices + [answer] + rest;
      |ls| >= 4 + |choices| && ls[1] == head[1] && ls[2] == head[2]
      && ls[3..3 + |choices|] == choices && ls[3 + |choices|] == answer
  {
    var ls := head + choices + [answer] + rest;
    assert ls[3..3 + |choices|] == choices;
  }

  lemma AllReadCons(qs: seq<Question>)
    requires qs != []
    ensures AllRead(NormaliseAll(qs)) == [Some(Normalise(qs[0]))] + AllRead(NormaliseAll(qs[1..]))
  {
  }

  /** Reading on after a block that was read. */
  lemma ReadBlocksAfterRead(ls: seq<string>)
    requires ls != [] && ReadBlock(ls).Read?
    ensures var r := ReadBlock(ls);
      var rest := ReadBlocks(ls[r.used..]);
      ReadBlocks(ls) == Blocks([r.question] + rest.read, rest.error)
  {
  }

  /** Written blocks followed by any lines read back as their questions, in order,
      followed by whatever those lines read as. */
  lemma {:induction false} ReadWrittenBlocks(qs: seq<Question>, rest: seq<string>)
    requires forall i :: 0 <= i < |qs| ==> Writable(qs[i])
    ensures ReadBlocks(WriteBlocks(qs) + rest)
      == Blocks(AllRead(NormaliseAll(qs)) + ReadBlocks(rest).read, ReadBlocks(rest).error)
  {
    if qs == [] {
      assert WriteBlocks(qs) + rest == rest;
      assert AllRead(NormaliseAll(qs)) == [];
    } else {
      var first := BlockLines(qs[0]);
      var tail := WriteBlocks(qs[1..]) + rest;
      var ls := first + tail;
      assert WriteBlocks(qs) + rest == ls;
      ReadWrittenBlock(qs[0], tail);
      assert ls[|first|..] == tail;
      ReadBlocksAfterRead(ls);
      ReadWrittenBlocks(qs[1..], rest);
      AllReadCons(qs);
      ConsAssociative(Some(Normalise(qs[0])), AllRead(NormaliseAll(qs[1..])), ReadBlocks(rest).read);
    }
  }

  /** A header and written blocks, followed by any lines: the written questions come first,
      in order, then whatever the remaining lines add, and the remaining lines alone decide
      whether loading fails. In particular a failure after the written blocks keeps them. */
  lemma LoadAfterWritten(declared: Int32, qs: seq<Question>, rest: seq<string>)
    requires forall i :: 0 <= i < |qs| ==> Writable(qs[i])
    ensures var r := Load([IntToString(declared)] + WriteBlocks(qs) + rest);
      var b := ReadBlocks(rest);
      r == Loaded(NormaliseAll(qs) + Present(b.read), Report(Some(declared), |qs| + |b.read|, b.error))
  {
    var body := WriteBlocks(qs) + rest;
    assert [IntToString(declared)] + WriteBlocks(qs) + rest == [IntToString(declared)] + body;
    LoadAfterHeader(declared, body);
    ReadWrittenBlocks(qs, rest);
    var b := ReadBlocks(rest);
    PresentConcat(AllRead(NormaliseAll(qs)), b.read);
    PresentAllRead(NormaliseAll(qs));
  }

  /** A header line written by Integer.toString is read back as the declared count, and the
      blocks are read from the line after it. */
  lemma LoadAfterHeader(declared: Int32, body: seq<string>)
    ensures var b := ReadBlocks(body);
      Load([IntToString(declared)] + body) == Loaded(Present(b.read), Report(Some(declared), |b.read|, b.error))
  {
    var lines := [IntToString(declared)] + body;
    assert lines[0] == IntToString(declared);
    TrimUnpadded(IntToString(declared));
    ParseIntOfIntToString(declared);
    assert lines[1..] == body;
  }

  /** A written file reads back as its questions, normalised and in order, with one block
      counted per question and no failure; the count warning appears exactly when the
      header declares a different number. */
  lemma LoadWritten(declared: Int32, qs: seq<Question>)
    requires forall i :: 0 <= i < |qs| ==> Writable(qs[i])
    ensures Load([IntToString(declared)] + WriteBlocks(qs))
      == Loaded(NormaliseAll(qs), Report(Some(declared), |qs|, None))
    ensures Warns(Report(Some(declared), |qs|, None)) <==> declared != |qs|
  {
    LoadAfterHeader(declared, WriteBlocks(qs));
    WrittenBody(qs);
  }

  /** The written blocks alone read back as their questions, with no failure. */
  lemma WrittenBody(qs: seq<Question>)
    requires forall i :: 0 <= i < |qs| ==> Writable(qs[i])
    ensures ReadBlocks(WriteBlocks(qs)) == Blocks(AllRead(NormaliseAll(qs)), None)
    ensures Present(AllRead(NormaliseAll(qs))) == NormaliseAll(qs)
  {
    AppendEmpty(WriteBlocks(qs));
    ReadWrittenBlocks(qs, []);
    AppendEmpty(AllRead(NormaliseAll(qs)));
    PresentAllRead(NormaliseAll(qs));
  }

  lemma ReadUnknownBlock(kind: string, points: Int32, text: string, rest: seq<string>)
    requires kind != [] && ' ' !in kind && kind != "TF" && kind != "MC" && kind != "SA"
    ensures ReadBlock([kind + " " + IntToString(points), text] + rest) == Read(None, 2)
  {
    var ls := [kind + " " + IntToString(points), text] + rest;
    assert ls[0] == kind + " " + IntToString(points) && ls[1] == text;
    SplitTwoWords(kind, IntToString(points));
    ParseIntOfIntToString(points);
  }

  /** A block whose kind is none of TF, MC, SA takes two lines, adds no question, and is
      still counted; the blocks after it are read as usual. */
  lemma UnknownKindCounted(declared: Int32, before: seq<Question>, kind: string, points: Int32,
                           text: string, after: seq<Question>)
    requires forall i :: 0 <= i < |before| ==> Writable(before[i])
    requires forall i :: 0 <= i < |after| ==> Writable(after[i])
    requires kind != [] && ' ' !in kind && kind != "TF" && kind != "MC" && kind != "SA"
    ensures var r := Load([IntToString(declared)] + WriteBlocks(before)
                          + ([kind + " " + IntToString(points), text] + WriteBlocks(after)));
      r == Loaded(NormaliseAll(before) + NormaliseAll(after),
                  Report(Some(declared), |before| + 1 + |after|, None))
      && |r.questions| < r.report.count
  {
    var rest := [kind + " " + IntToString(points), text] + WriteBlocks(after);
    LoadAfterWritten(declared, before, rest);
    ReadUnknownBlock(kind, points, text, WriteBlocks(after));
    ReadBlocksAfterRead(rest);
    assert rest[2..] == WriteBlocks(after) + [];
    ReadWrittenBlocks(after, []);
    var tail := AllRead(NormaliseAll(after));
    assert ReadBlocks(rest).read == [None] + (tail + []);
    assert tail + [] == tail;
    PresentAllRead(NormaliseAll(after));
    assert Present(ReadBlocks(rest).read) == Added(None) + Present(tail);
    var b := ReadBlocks(rest);
    assert Present(b.read) == NormaliseAll(after);
    assert |b.read| == 1 + |after| && b.error == None;
  }

  /** Lines appended to a written file, whatever they hold, never lose or reorder the
      written questions: those stay the first questions loaded. */
  lemma AppendedLinesKeepQuestions(declared: Int32, qs: seq<Question>, extra: seq<string>)
    requires forall i :: 0 <= i < |qs| ==> Writable(qs[i])
    ensures NormaliseAll(qs) <= Load([IntToString(declared)] + WriteBlocks(qs) + extra).questions
  {
    var file := [IntToString(declared)] + WriteBlocks(qs);
    var lines := file + extra;
    assert lines[..|file|] == file;
    LoadTruncated(lines, |file|);
    LoadWritten(declared, qs);
  }
}
