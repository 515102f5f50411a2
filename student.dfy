/**
 * The student's side of a session: joining a poll by its code, following
 * the poll's questions from change events, the countdown, and submitting
 * one chosen option. Each handler is a method; the store's answer to each
 * call it makes is a parameter, and the answers it sends are kept in
 * `submissions`.
 */
module StudentSession {
  import opened Records
  import opened Text

  /** Whole seconds from `startedAt` to `now` (both in milliseconds), rounded down. */
  function ElapsedSeconds(startedAt: int, now: int): (s: int)
    ensures s * 1000 <= now - startedAt < s * 1000 + 1000
  {
    (now - startedAt) / 1000
  }

  /**
   * The countdown a late joiner starts from: the time limit less the whole
   * seconds elapsed since the question started, and never below 0.
   */
  function Remaining(timeLimit: int, startedAt: int, now: int): (r: int)
    ensures r >= 0
    ensures r >= timeLimit - ElapsedSeconds(startedAt, now)
    ensures r == 0 || r == timeLimit - ElapsedSeconds(startedAt, now)
  {
    var left := timeLimit - ElapsedSeconds(startedAt, now);
    if left > 0 then left else 0
  }

  /** Joining after the start never shows more than the full time limit. */
  lemma RemainingWithinLimit(timeLimit: int, startedAt: int, now: int)
    requires startedAt <= now && 0 <= timeLimit
    ensures 0 <= Remaining(timeLimit, startedAt, now) <= timeLimit
  {
    assert ElapsedSeconds(startedAt, now) >= 0;
  }

  /** Joining one second later shows one second less, down to 0. */
  lemma RemainingOneSecondLater(timeLimit: int, startedAt: int, now: int)
    ensures Remaining(timeLimit, startedAt, now + 1000)
      == if Remaining(timeLimit, startedAt, now) > 0 then Remaining(timeLimit, startedAt, now) - 1 else 0
  {
    var e := ElapsedSeconds(startedAt, now);
    var e' := ElapsedSeconds(startedAt, now + 1000);
    assert e' == e + 1 by {
      assert (e + 1) * 1000 <= now + 1000 - startedAt < (e + 1) * 1000 + 1000;
      assert e' * 1000 <= now + 1000 - startedAt < e' * 1000 + 1000;
    }
  }

  /** A 30-second question joined 1.999 seconds after its start still shows 29 seconds. */
  lemma RemainingRoundsElapsedDown()
    ensures Remaining(30, 0, 1999) == 29
    ensures Remaining(60, 1000, 21000) == 40
    ensures Remaining(10, 0, 15000) == 0
  {
  }

  /** The test a poll row must pass to match the join code `code`. */
  function CodeIs(code: string): Poll -> bool
  {
    (p: Poll) => p.code == code
  }

  /** The test a question row must pass to be the active question of poll `pollId`. */
  function ActiveIn(pollId: string): Question -> bool
  {
    (q: Question) => q.pollId == pollId && q.isActive
  }

  /**
   * The poll the join looks up: the single poll with code `code`. No match,
   * several matches and a store error all come back as no poll.
   */
  function FindPoll(polls: Reply<Poll>, code: string): (p: Option<Poll>)
    ensures p.Some? ==> polls.Rows? && p.value in polls.rows && p.value.code == code
  {
    match polls
    case StoreDown => None
    case Rows(rows) => MaybeSingle(rows, CodeIs(code))
  }

  /** A poll is found exactly when the store answers and exactly one poll has the code. */
  lemma FindPollFinds(polls: Reply<Poll>, code: string)
    ensures FindPoll(polls, code).Some? <==> polls.Rows? && CountWhere(polls.rows, CodeIs(code)) == 1
  {
    if polls.Rows? {
      MaybeSingleFinds(polls.rows, CodeIs(code));
    }
  }

  /**
   * The active question a late joiner catches up with: the single active
   * question of poll `pollId`. A store error counts as no question.
   */
  function FindActiveQuestion(questions: Reply<Question>, pollId: string): (q: Option<Question>)
    ensures q.Some? ==> questions.Rows? && q.value in questions.rows && q.value.pollId == pollId && q.value.isActive
  {
    match questions
    case StoreDown => None
    case Rows(rows) => MaybeSingle(rows, ActiveIn(pollId))
  }

  /**
   * A late joiner catches up exactly when the store answers and the poll
   * has exactly one active question.
   */
  lemma FindActiveQuestionFinds(questions: Reply<Question>, pollId: string)
    ensures FindActiveQuestion(questions, pollId).Some? <==>
      questions.Rows? && CountWhere(questions.rows, ActiveIn(pollId)) == 1
  {
    if questions.Rows? {
      MaybeSingleFinds(questions.rows, ActiveIn(pollId));
    }
  }

  /**
   * The countdown effect: it runs whenever the countdown changes, and when
   * the countdown is then 0 it marks the question as answered.
   */
  function AfterTimerEffect(before: Option<int>, after: Option<int>, answered: bool): (r: bool)
    ensures answered ==> r
    ensures after == before ==> r == answered
    ensures after != Some(0) ==> r == answered
    ensures after == Some(0) && before != Some(0) ==> r
  {
    if after != before && after == Some(0) then true else answered
  }

  /** Joining needs a name and a code that are not blank. */
  predicate JoinFieldsFilled(name: string, code: string): (ok: bool)
    ensures ok <==> !AllSpace(name) && !AllSpace(code)
  {
    TrimEmptyIffAllSpace(name);
    TrimEmptyIffAllSpace(code);
    Trim(name) != [] && Trim(code) != []
  }

  /**
   * The countdown a late joiner starts with: none without an active
   * question, and otherwise the time left of it, which is within the time
   * limit when the question started in the past.
   */
  function CatchUp(active: Option<Question>, now: int): (left: Option<int>)
    ensures left.Some? <==> active.Some?
    ensures left.Some? ==> left.value >= 0
    ensures left.Some? && active.value.startedAt <= now && active.value.timeLimit >= 0 ==>
      left.value <= active.value.timeLimit
  {
    match active
    case None => None
    case Some(q) =>
      if q.startedAt <= now && q.timeLimit >= 0 then
        RemainingWithinLimit(q.timeLimit, q.startedAt, now);
        Some(Remaining(q.timeLimit, q.startedAt, now))
      else Some(Remaining(q.timeLimit, q.startedAt, now))
  }

  /** An answer sent to the store. */
  datatype Submission = Submission(questionId: string, studentId: string, selectedOption: int)

  datatype JoinOutcome = Joined | MissingFields | PollNotFound | JoinFailed

  datatype SubmitOutcome = Submitted | NotReady | SubmitFailed

  /** The state the interface keeps locally, without the answers it has sent. */
  datatype StudentState = StudentState(
    studentName: string,
    pollCode: string,
    hasJoined: bool,
    poll: Option<Poll>,
    student: Option<Student>,
    currentQuestion: Option<Question>,
    selectedAnswer: Option<int>,
    hasAnswered: bool,
    timeLeft: Option<int>)

  class StudentInterface {
    var studentName: string
    var pollCode: string
    var hasJoined: bool
    var poll: Option<Poll>
    var student: Option<Student>
    var currentQuestion: Option<Question>
    var selectedAnswer: Option<int>
    var hasAnswered: bool
    var timeLeft: Option<int>
    var submissions: seq<Submission>

    /**
     * The interface's invariant: it has joined exactly when it holds a poll
     * and a student of that poll; before joining there is no question, no
     * countdown, no choice and no answer; the current question is an active
     * question of the joined poll; a countdown belongs to a current question;
     * a choice made for the current question is one of its options; and
     * every answer sent was sent by this student, with an option index that
     * is not negative.
     */
    ghost predicate Valid()
      reads this
    {
      && (hasJoined <==> poll.Some?) && (hasJoined <==> student.Some?)
      && (student.Some? ==> poll.Some? && student.value.pollId == poll.value.id)
      && (!hasJoined ==>
            currentQuestion.None? && timeLeft.None? && selectedAnswer.None? && !hasAnswered && submissions == [])
      && (currentQuestion.Some? ==>
            poll.Some? && currentQuestion.value.pollId == poll.value.id && currentQuestion.value.isActive)
      && (timeLeft.Some? ==> currentQuestion.Some?)
      && (selectedAnswer.Some? && currentQuestion.Some? ==>
            0 <= selectedAnswer.value < |currentQuestion.value.options|)
      && (forall s :: s in submissions ==>
            student.Some? && s.studentId == student.value.id && 0 <= s.selectedOption)
    }

    function Local(): StudentState
      reads this
    {
      StudentState(studentName, pollCode, hasJoined, poll, student, currentQuestion,
        selectedAnswer, hasAnswered, timeLeft)
    }

    constructor ()
      ensures Valid()
      ensures Local() == StudentState("", "", false, None, None, None, None, false, None)
      ensures submissions == []
    {
      studentName, pollCode, hasJoined := "", "", false;
      poll, student, currentQuestion := None, None, None;
      selectedAnswer, hasAnswered, timeLeft := None, false, None;
      submissions := [];
    }

    /** An edit of the name field: the typed text is kept trimmed. */
    method SetStudentName(typed: string)
      requires Valid()
      modifies this
      ensures Valid()
      ensures Local() == old(Local()).(studentName := Trim(typed)) && submissions == old(submissions)
    {
      studentName := Trim(typed);
    }

    /** An edit of the code field: the typed text is kept trimmed and upper-cased. */
    method SetPollCode(typed: string)
      requires Valid()
      modifies this
      ensures Valid()
      ensures Local() == old(Local()).(pollCode := ToUpper(Trim(typed))) && submissions == old(submissions)
    {
      pollCode := ToUpper(Trim(typed));
    }

    /**
     * Joining. Refused, with nothing changed, when the trimmed name or the
     * trimmed code is empty. The code is upper-cased and trimmed and the
     * single poll with that code is looked up; without one, or when the
     * store cannot create the student, nothing changes. Otherwise the
     * interface holds the poll and the new student (under the name as
     * entered), and catches up with the poll's active question, if there is
     * exactly one: its countdown starts from the time left, and when no time
     * is left the question counts as answered.
     */
    method JoinPoll(polls: Reply<Poll>, created: Insert, questions: Reply<Question>, now: int)
      returns (outcome: JoinOutcome)
      requires Valid() && !hasJoined
      modifies this
      ensures Valid()
      ensures submissions == old(submissions)
      ensures outcome == MissingFields <==> !JoinFieldsFilled(old(studentName), old(pollCode))
      ensures outcome == PollNotFound <==>
        JoinFieldsFilled(old(studentName), old(pollCode)) && FindPoll(polls, NormalizeCode(old(pollCode))).None?
      ensures outcome == JoinFailed <==>
        && JoinFieldsFilled(old(studentName), old(pollCode)) && FindPoll(polls, NormalizeCode(old(pollCode))).Some?
        && created.InsertFailed?
      ensures outcome != Joined ==> Local() == old(Local())
      ensures outcome == Joined ==>
        && poll == FindPoll(polls, NormalizeCode(old(pollCode)))
        && student == Some(Student(created.id, poll.value.id, old(studentName), now))
        && currentQuestion == FindActiveQuestion(questions, poll.value.id)
        && timeLeft == CatchUp(currentQuestion, now)
        && hasAnswered == (timeLeft == Some(0))
        && Local() == old(Local()).(hasJoined := true, poll := poll, student := student,
             currentQuestion := currentQuestion, timeLeft := timeLeft, hasAnswered := hasAnswered)
    {
      var filled := JoinFieldsFilled(studentName, pollCode);
      var found := FindPoll(polls, NormalizeCode(pollCode));
      if !filled {
        outcome := MissingFields;
      } else if found.None? {
        outcome := PollNotFound;
      } else if created.InsertFailed? {
        outcome := JoinFailed;
      } else {
        var pollId := found.value.id;
        poll := found;
        student := Some(Student(created.id, pollId, studentName, now));
        hasJoined := true;
        CatchUpWith(questions, now);
        outcome := Joined;
      }
    }

    /**
     * The catch-up right after joining: the single active question of the
     * poll, if there is one, becomes current, with its countdown at the time
     * left; with no time left it counts as answered.
     */
    method CatchUpWith(questions: Reply<Question>, now: int)
      requires Valid() && hasJoined
      requires currentQuestion.None? && timeLeft.None? && selectedAnswer.None? && !hasAnswered
      modifies this
      ensures Valid()
      ensures currentQuestion == FindActiveQuestion(questions, old(poll).value.id)
      ensures timeLeft == CatchUp(currentQuestion, now)
      ensures hasAnswered == (timeLeft == Some(0))
      ensures Local() == old(Local()).(currentQuestion := currentQuestion, timeLeft := timeLeft,
        hasAnswered := hasAnswered)
      ensures submissions == old(submissions)
    {
      var active := FindActiveQuestion(questions, poll.value.id);
      var left := CatchUp(active, now);
      currentQuestion := active;
      hasAnswered := AfterTimerEffect(timeLeft, left, hasAnswered);
      timeLeft := left;
    }

    /**
     * A question of the joined poll was created. An active one becomes the
     * current question with a fresh countdown at its time limit, no choice
     * and no answer (unless the countdown starts at 0, and so changes to 0).
     * Inactive ones and other polls' questions are ignored.
     */
    method OnQuestionInserted(q: Question)
      requires Valid()
      modifies this
      ensures Valid()
      ensures submissions == old(submissions)
      ensures old(poll).Some? && q.pollId == old(poll).value.id && q.isActive ==>
        Local() == old(Local()).(
          currentQuestion := Some(q),
          timeLeft := Some(q.timeLimit),
          selectedAnswer := None,
          hasAnswered := q.timeLimit == 0 && old(timeLeft) != Some(0))
      ensures !(old(poll).Some? && q.pollId == old(poll).value.id && q.isActive) ==>
        Local() == old(Local())
    {
      if poll.Some? && q.pollId == poll.value.id && q.isActive {
        var left := Some(q.timeLimit);
        hasAnswered := AfterTimerEffect(timeLeft, left, false);
        currentQuestion := Some(q);
        timeLeft := left;
        selectedAnswer := None;
      }
    }

    /**
     * A question of the joined poll was updated. When it is now inactive and
     * it is the current question, there is no current question and no
     * countdown any more; the choice and the answer flag are kept. Every
     * other update is ignored.
     */
    method OnQuestionUpdated(q: Question)
      requires Valid()
      modifies this
      ensures Valid()
      ensures submissions == old(submissions)
      ensures (old(poll).Some? && q.pollId == old(poll).value.id && !q.isActive
               && old(currentQuestion).Some? && old(currentQuestion).value.id == q.id) ==>
        Local() == old(Local()).(currentQuestion := None, timeLeft := None)
      ensures !(old(poll).Some? && q.pollId == old(poll).value.id && !q.isActive
               && old(currentQuestion).Some? && old(currentQuestion).value.id == q.id) ==>
        Local() == old(Local())
    {
      if poll.Some? && q.pollId == poll.value.id && !q.isActive
        && currentQuestion.Some? && currentQuestion.value.id == q.id
      {
        currentQuestion := None;
        timeLeft := None;
      }
    }

    /**
     * One second of the countdown. A positive count goes down by one, and
     * the step that brings it to 0 marks the question as answered. Without a
     * countdown, or with one at 0 or below, nothing happens.
     */
    method Tick()
      requires Valid()
      modifies this
      ensures Valid()
      ensures submissions == old(submissions)
      ensures old(timeLeft).Some? && old(timeLeft).value > 0 ==>
        Local() == old(Local()).(
          timeLeft := Some(old(timeLeft).value - 1),
          hasAnswered := old(hasAnswered) || old(timeLeft).value == 1)
      ensures old(timeLeft).None? || old(timeLeft).value <= 0 ==> Local() == old(Local())
    {
      if timeLeft.Some? && timeLeft.value > 0 {
        var next := Some(timeLeft.value - 1);
        hasAnswered := AfterTimerEffect(timeLeft, next, hasAnswered);
        timeLeft := next;
      }
    }

    /** Choosing option `index` of the current question; each option has its button. */
    method SelectAnswer(index: int)
      requires Valid()
      requires currentQuestion.Some? && 0 <= index < |currentQuestion.value.options|
      modifies this
      ensures Valid()
      ensures Local() == old(Local()).(selectedAnswer := Some(index)) && submissions == old(submissions)
    {
      selectedAnswer := Some(index);
    }

    /**
     * Submitting the chosen option. Nothing happens without a choice, a
     * current question and a student. Otherwise the answer is sent to the
     * store, and the question counts as answered exactly when the store
     * accepts it; on an error the choice stays, to be submitted again.
     */
    method Submit(ack: Ack) returns (outcome: SubmitOutcome)
      requires Valid()
      modifies this
      ensures Valid()
      ensures old(selectedAnswer).None? || old(currentQuestion).None? || old(student).None? ==>
        outcome == NotReady && Local() == old(Local()) && submissions == old(submissions)
      ensures old(selectedAnswer).Some? && old(currentQuestion).Some? && old(student).Some? ==>
        && 0 <= old(selectedAnswer).value < |old(currentQuestion).value.options|
        && submissions == old(submissions) + [Submission(old(currentQuestion).value.id,
             old(student).value.id, old(selectedAnswer).value)]
        && outcome == (if ack.Acked? then Submitted else SubmitFailed)
        && Local() == old(Local()).(hasAnswered := old(hasAnswered) || ack.Acked?)
    {
      if selectedAnswer.None? || currentQuestion.None? || student.None? {
        return NotReady;
      }
      submissions := submissions + [Submission(currentQuestion.value.id, student.value.id, selectedAnswer.value)];
      if ack.Rejected? {
        return SubmitFailed;
      }
      hasAnswered := true;
      outcome := Submitted;
    }
  }

  /**
   * The code a student types is looked up as it is kept: normalising the
   * kept code (already trimmed and upper-cased) changes nothing.
   */
  lemma KeptCodeIsLookedUp(typed: string)
    ensures NormalizeCode(ToUpper(Trim(typed))) == ToUpper(Trim(typed))
  {
    NormalizeIsUpperOfTrim(typed);
    NormalizeIdempotent(typed);
  }
}
