/** The rules of a quiz session (QuizBowl.getValidQuestionCount and playGame) as
    functions: how many questions may be asked, how the list is reordered before play,
    and what each response does to the score. */
module Game {
  import opened Wrappers
  import opened Text
  import opened Numbers
  import opened Questions

  // ---------------------------------------------------------------------------------
  // Choosing how many questions to play.

  /** A question count the player may choose: at least one, at most the number loaded. */
  predicate ValidCount(n: int, maxQuestions: int) {
    0 < n <= maxQuestions
  }

  /** The three ways one pass of the retry loop ends: the count is returned, or "that is
      too many" (a number out of range), or "that is not valid" (not a number). */
  datatype Selection = Accepted(count: Int32) | TooMany(requested: Int32) | NotValid

  /** One pass of getValidQuestionCount's loop on the player's input line. */
  function CheckSelection(line: string, maxQuestions: int): (r: Selection)
    ensures r.Accepted? ==> ValidCount(r.count, maxQuestions)
    ensures r.TooMany? ==> !ValidCount(r.requested, maxQuestions)
    ensures r.NotValid? <==> ParseInt(Trim(line)).None?
    ensures r.Accepted? ==> ParseInt(Trim(line)) == Some(r.count)
    ensures r.TooMany? ==> ParseInt(Trim(line)) == Some(r.requested)
  {
    match ParseInt(Trim(line))
    case None => NotValid
    case Some(n) => if ValidCount(n, maxQuestions) then Accepted(n) else TooMany(n)
  }

  /** Any int typed in decimal, with any padding around it, is accepted exactly when it
      is a valid count, and is otherwise rejected as too many, never as not valid. */
  lemma SelectionOfNumber(before: string, n: Int32, after: string, maxQuestions: int)
    requires forall k :: 0 <= k < |before| ==> IsPadding(before[k])
    requires forall k :: 0 <= k < |after| ==> IsPadding(after[k])
    ensures CheckSelection(before + IntToString(n) + after, maxQuestions)
      == if ValidCount(n, maxQuestions) then Accepted(n) else TooMany(n)
  {
    TrimStripsPadding(before, IntToString(n), after);
    ParseIntOfIntToString(n);
  }

  /** Input holding anything but a number after trimming is rejected as not valid,
      whatever the number of questions. */
  lemma SelectionOfNonNumber(line: string, i: nat, maxQuestions: int)
    requires i < |Trim(line)| && !IsDigit(Trim(line)[i])
    requires !(i == 0 && (Trim(line)[0] == '-' || Trim(line)[0] == '+'))
    ensures CheckSelection(line, maxQuestions) == NotValid
  {
    ParseIntRejectsNonDigit(Trim(line), i);
  }

  // ---------------------------------------------------------------------------------
  // Reordering the list before play.

  /** order lists every index below n exactly once. */
  predicate IsPermutation(order: seq<int>, n: nat) {
    && |order| == n
    && (forall i :: 0 <= i < n ==> 0 <= order[i] < n)
    && (forall i, j :: 0 <= i < j < n ==> order[i] != order[j])
  }

  function Identity(n: nat): (r: seq<int>)
    ensures IsPermutation(r, n)
  {
    seq(n, i => i)
  }

  /** The list reordered so that position i holds the element that was at order[i]. */
  function Shuffled<T>(xs: seq<T>, order: seq<int>): (r: seq<T>)
    requires IsPermutation(order, |xs|)
    ensures |r| == |xs|
  {
    seq(|xs|, i requires 0 <= i < |xs| => xs[order[i]])
  }

  /** The identity order keeps the list as loaded. */
  lemma ShuffledByIdentity<T>(xs: seq<T>)
    ensures Shuffled(xs, Identity(|xs|)) == xs
  {
  }

  /** Removing the value k from a permutation of n and closing the gap gives a
      permutation of n - 1. */
  function Without(order: seq<int>, k: int): seq<int> {
    seq(|order|, i requires 0 <= i < |order| => if order[i] < k then order[i] else order[i] - 1)
  }

  /** Dropping the last entry k of a permutation of n and closing the gap above k
      leaves a permutation of n - 1. */
  lemma WithoutLast(order: seq<int>, n: nat)
    requires n > 0 && IsPermutation(order, n)
    ensures IsPermutation(Without(order[..n - 1], order[n - 1]), n - 1)
  {
    var k := order[n - 1];
    var order' := Without(order[..n - 1], k);
    forall i | 0 <= i < n - 1
      ensures 0 <= order'[i] < n - 1
    {
      assert order[i] != order[n - 1];
    }
    forall i, j | 0 <= i < j < n - 1
      ensures order'[i] != order'[j]
    {
      assert order[i] != order[j];
    }
  }

  /** Reordering xs is reordering xs without the element the last position takes, then
      putting that element last. */
  lemma ShuffledSplit<T>(xs: seq<T>, order: seq<int>)
    requires |xs| > 0 && IsPermutation(order, |xs|)
    ensures var n, k := |xs|, order[|xs| - 1];
      IsPermutation(Without(order[..n - 1], k), n - 1)
      && Shuffled(xs, order)
         == Shuffled(xs[..k] + xs[k + 1..], Without(order[..n - 1], k)) + [xs[k]]
  {
    var n, k := |xs|, order[|xs| - 1];
    var rest := xs[..k] + xs[k + 1..];
    var order' := Without(order[..n - 1], k);
    WithoutLast(order, n);
    var left, right := Shuffled(xs, order), Shuffled(rest, order') + [xs[k]];
    forall i | 0 <= i < n
      ensures left[i] == right[i]
    {
      if i < n - 1 {
        assert order[i] != k;
      }
    }
  }

  /** Reordering never adds, drops or duplicates a question. */
  lemma {:induction false} ShuffledIsPermutation<T>(xs: seq<T>, order: seq<int>)
    requires IsPermutation(order, |xs|)
    ensures multiset(Shuffled(xs, order)) == multiset(xs)
    decreases |xs|
  {
    var n := |xs|;
    if n > 0 {
      var k := order[n - 1];
      var rest := xs[..k] + xs[k + 1..];
      var order' := Without(order[..n - 1], k);
      ShuffledSplit(xs, order);
      ShuffledIsPermutation(rest, order');
      assert xs == xs[..k] + [xs[k]] + xs[k + 1..];
    }
  }

  // ---------------------------------------------------------------------------------
  // Playing.

  /** What one turn does: nothing on a skip, otherwise the point value is gained or lost;
      a wrong response also shows the stored answer. */
  datatype Turn = Skipped | Correct(gain: Int32) | Incorrect(shown: string, loss: Int32)

  predicate IsSkip(response: string) {
    EqualsIgnoreCase(response, "SKIP")
  }

  /** One pass of the playGame loop on question q and the player's input line, which is
      trimmed first. */
  function Judge(q: Question, line: string): Turn {
    var response := Trim(line);
    if IsSkip(response) then Skipped
    else if CheckAnswer(q, response) then Correct(PointValue(q))
    else Incorrect(CorrectAnswerText(q), PointValue(q))
  }

  /** The change a turn makes to the score, before int wrap-around. */
  function Delta(t: Turn): int {
    match t
    case Skipped => 0
    case Correct(gain) => gain
    case Incorrect(_, loss) => -(loss as int)
  }

  /** The turns of the questions in list order, each judged on its own line. */
  function Judgements(qs: seq<Question>, lines: seq<string>): (ts: seq<Turn>)
    requires |qs| == |lines|
    ensures |ts| == |qs|
    ensures forall i :: 0 <= i < |qs| ==> ts[i] == Judge(qs[i], lines[i])
  {
    seq(|qs|, i requires 0 <= i < |qs| => Judge(qs[i], lines[i]))
  }

  /** The signed sum of the turns' changes in turn order. */
  function Total(ts: seq<Turn>): int {
    if ts == [] then 0 else Total(ts[..|ts| - 1]) + Delta(ts[|ts| - 1])
  }

  /** The most a list of questions can move the score: the sum of the point values'
      magnitudes. */
  function Stake(qs: seq<Question>): nat {
    if qs == [] then 0
    else Stake(qs[..|qs| - 1]) + Abs(PointValue(qs[|qs| - 1]))
  }

  /** Typing SKIP in any case, with any padding, skips: the question's answer plays no part
      and the score does not move. */
  lemma SkipInAnyCase(q: Question, line: string)
    requires Upper(Trim(line)) == "SKIP"
    ensures Judge(q, line) == Skipped && Delta(Judge(q, line)) == 0
  {
    EqualsIgnoreCaseIffUpperEqual(Trim(line), "SKIP");
  }

  /** A response other than a skip gains the point value when checkAnswer accepts it and
      loses it otherwise. */
  lemma AnsweredTurn(q: Question, line: string)
    requires Upper(Trim(line)) != "SKIP"
    ensures Delta(Judge(q, line)) == if CheckAnswer(q, Trim(line)) then q.points as int else -(q.points as int)
  {
    EqualsIgnoreCaseIffUpperEqual(Trim(line), "SKIP");
  }

  /** Turns that are all skips add up to nothing. */
  lemma {:induction false} SkipsTotalNothing(ts: seq<Turn>)
    requires forall i :: 0 <= i < |ts| ==> ts[i] == Skipped
    ensures Total(ts) == 0
  {
    if ts != [] {
      SkipsTotalNothing(ts[..|ts| - 1]);
    }
  }

  /** A session in which every response is a skip ends with the score unchanged. */
  lemma AllSkipsScoreNothing(qs: seq<Question>, lines: seq<string>)
    requires |qs| == |lines|
    requires forall i :: 0 <= i < |lines| ==> Upper(Trim(lines[i])) == "SKIP"
    ensures Total(Judgements(qs, lines)) == 0
  {
    var ts := Judgements(qs, lines);
    forall i | 0 <= i < |ts|
      ensures ts[i] == Skipped
    {
      SkipInAnyCase(qs[i], lines[i]);
    }
    SkipsTotalNothing(ts);
  }

  /** Playing a list in two parts scores the sum of the parts. */
  lemma {:induction false} TotalOfConcat(a: seq<Turn>, b: seq<Turn>)
    ensures Total(a + b) == Total(a) + Total(b)
    decreases |b|
  {
    if b == [] {
      assert a + b == a;
    } else {
      assert (a + b)[..|a + b| - 1] == a + b[..|b| - 1];
      TotalOfConcat(a, b[..|b| - 1]);
    }
  }

  function Abs(x: int): (r: int)
    ensures r >= 0 && (r == x || r == -x)
  {
    if x < 0 then -x else x
  }

  /** A turn never moves the score by more than its question's point value. */
  lemma DeltaWithinPoints(q: Question, line: string)
    ensures -Abs(q.points) <= Delta(Judge(q, line)) <= Abs(q.points)
  {
  }

  /** Turns each bounded by their question's point value move the score by at most the
      stake of those questions. */
  lemma {:induction false} TotalBounded(ts: seq<Turn>, qs: seq<Question>)
    requires |ts| == |qs|
    requires forall i :: 0 <= i < |ts| ==> -Abs(qs[i].points) <= Delta(ts[i]) <= Abs(qs[i].points)
    ensures -(Stake(qs) as int) <= Total(ts) <= Stake(qs)
  {
    if ts != [] {
      var n := |ts|;
      TotalBounded(ts[..n - 1], qs[..n - 1]);
    }
  }

  /** Every turn of a session stays within its question's point value. */
  lemma JudgementsWithinPoints(qs: seq<Question>, lines: seq<string>)
    requires |qs| == |lines|
    ensures forall i :: 0 <= i < |qs| ==>
      -Abs(qs[i].points) <= Delta(Judgements(qs, lines)[i]) <= Abs(qs[i].points)
  {
    forall i | 0 <= i < |qs|
      ensures -Abs(qs[i].points) <= Delta(Judgements(qs, lines)[i]) <= Abs(qs[i].points)
    {
      DeltaWithinPoints(qs[i], lines[i]);
    }
  }

  /** The score never moves by more than the stake, so while the stake fits an int the
      running int score is the exact signed sum. */
  lemma TotalWithinStake(qs: seq<Question>, lines: seq<string>)
    requires |qs| == |lines|
    ensures -(Stake(qs) as int) <= Total(Judgements(qs, lines)) <= Stake(qs)
    ensures Stake(qs) <= INT_MAX ==> Wrap32(Total(Judgements(qs, lines))) == Total(Judgements(qs, lines))
  {
    JudgementsWithinPoints(qs, lines);
    TotalBounded(Judgements(qs, lines), qs);
  }
}
