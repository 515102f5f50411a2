/**
 * The teacher's dashboard: the poll it created, the current question, the
 * students and responses it has collected from change events, the question
 * form and the countdown. Each handler of the dashboard is a method; the
 * store's answer to each call it makes is a parameter, and the question
 * writes it sends are kept in `writes`.
 */
module TeacherSession {
  import opened Records
  import opened LiveResults
  import opened QuestionForm

  /** The title every created poll gets. */
  const PollTitle := "Live Poll Session"

  /** A question write sent to the store: a question created, or asked to close. */
  datatype QuestionWrite = Opened(id: string) | CloseRequested(id: string, endedAt: int)

  /**
   * The questions that `log` leaves open: created and not asked to close
   * since. Later writes override earlier ones.
   */
  function OpenIds(log: seq<QuestionWrite>): set<string>
  {
    if log == [] then {}
    else
      var last := log[|log| - 1];
      match last
      case Opened(id) => OpenIds(log[..|log| - 1]) + {id}
      case CloseRequested(id, _) => OpenIds(log[..|log| - 1]) - {id}
  }

  /** `log` opens `id` at position i and no later write asks to close it. */
  ghost predicate OpenedAndNotClosedSince(log: seq<QuestionWrite>, id: string, i: int)
  {
    0 <= i < |log| && log[i] == Opened(id)
    && forall j :: i < j < |log| ==> !(log[j].CloseRequested? && log[j].id == id)
  }

  /**
   * A question is open after `log` exactly when some write created it and no
   * later write asked to close it.
   */
  lemma {:induction false} OpenIdsMeaning(log: seq<QuestionWrite>, id: string)
    ensures id in OpenIds(log) <==> exists i :: OpenedAndNotClosedSince(log, id, i)
  {
    if log != [] {
      var init := log[..|log| - 1];
      var last := log[|log| - 1];
      OpenIdsMeaning(init, id);
      if id in OpenIds(log) {
        if last == Opened(id) {
          assert OpenedAndNotClosedSince(log, id, |log| - 1);
        } else {
          var i :| OpenedAndNotClosedSince(init, id, i);
          assert OpenedAndNotClosedSince(log, id, i);
        }
      }
      forall i | OpenedAndNotClosedSince(log, id, i) ensures id in OpenIds(log) {
        if i < |log| - 1 {
          assert OpenedAndNotClosedSince(init, id, i);
        }
      }
    }
  }

  /** Appending a write updates the open questions by that write alone. */
  lemma OpenIdsAppend(log: seq<QuestionWrite>, w: QuestionWrite)
    ensures w.Opened? ==> OpenIds(log + [w]) == OpenIds(log) + {w.id}
    ensures w.CloseRequested? ==> OpenIds(log + [w]) == OpenIds(log) - {w.id}
  {
    assert (log + [w])[..|log|] == log;
  }

  /** The close write for `q` when it is active, and no write otherwise. */
  function CloseIfActive(q: Option<Question>, now: int): (w: seq<QuestionWrite>)
    ensures |w| <= 1 && (w != [] <==> ActiveOf(q) != {})
    ensures forall i :: 0 <= i < |w| ==> w[i].CloseRequested? && w[i].id in ActiveOf(q) && w[i].endedAt == now
  {
    if q.Some? && q.value.isActive then [CloseRequested(q.value.id, now)] else []
  }

  /** The id of `q` while it is active, as a set of at most one id. */
  function ActiveOf(q: Option<Question>): (ids: set<string>)
    ensures |ids| <= 1
  {
    if q.Some? && q.value.isActive then {q.value.id} else {}
  }

  /** Closing the active question leaves nothing open that was open before. */
  lemma CloseLeavesNothingOpen(log: seq<QuestionWrite>, q: Option<Question>, now: int)
    requires OpenIds(log) <= ActiveOf(q)
    ensures OpenIds(log + CloseIfActive(q, now)) == {}
  {
    if q.Some? && q.value.isActive {
      OpenIdsAppend(log, CloseRequested(q.value.id, now));
    } else {
      assert log + CloseIfActive(q, now) == log;
    }
  }

  /** Closing the active question and then creating `id` leaves `id` the only open question. */
  lemma OpenLeavesOnlyNew(log: seq<QuestionWrite>, q: Option<Question>, now: int, id: string)
    requires OpenIds(log) <= ActiveOf(q)
    ensures OpenIds(log + CloseIfActive(q, now) + [Opened(id)]) == {id}
  {
    CloseLeavesNothingOpen(log, q, now);
    OpenIdsAppend(log + CloseIfActive(q, now), Opened(id));
  }

  /** `q` marked inactive; no question stays no question. */
  function Closed(q: Option<Question>): (r: Option<Question>)
    ensures r.Some? <==> q.Some?
    ensures ActiveOf(r) == {}
    ensures r.Some? ==> r.value.(isActive := q.value.isActive) == q.value
  {
    match q
    case None => None
    case Some(question) => Some(question.(isActive := false))
  }

  /** Closing a closed question changes nothing. */
  lemma ClosedIdempotent(q: Option<Question>)
    ensures Closed(Closed(q)) == Closed(q)
  {
  }

  /** The slots of the four option fields. */
  datatype OptionSlot = SlotA | SlotB | SlotC | SlotD

  datatype StartOutcome = Started | Refused | StoreFailed

  /** The state the dashboard keeps locally, without the writes it has sent. */
  datatype LocalState = LocalState(
    poll: Option<Poll>,
    currentQuestion: Option<Question>,
    students: seq<Student>,
    responses: seq<Response>,
    form: Form,
    timeLeft: Option<int>)

  class TeacherDashboard {
    var poll: Option<Poll>
    var currentQuestion: Option<Question>
    var students: seq<Student>
    var responses: seq<Response>
    var form: Form
    var timeLeft: Option<int>
    var writes: seq<QuestionWrite>

    /** The id of the current question while it is active. */
    function ActiveIds(): set<string>
      reads this
    {
      ActiveOf(currentQuestion)
    }

    /**
     * The dashboard's invariant: the time-limit field is never 0; a running
     * countdown belongs to the current question, which is then active, and
     * never shows 0 (reaching 0 ends the question at once); every collected
     * response is for the current question; and the only question the
     * dashboard has opened and not asked to close is its active one.
     */
    ghost predicate Valid()
      reads this
    {
      && form.timeLimit != 0
      && (timeLeft.Some? ==>
            currentQuestion.Some? && currentQuestion.value.isActive && timeLeft.value != 0)
      && (forall r :: r in responses ==> currentQuestion.Some? && r.questionId == currentQuestion.value.id)
      && OpenIds(writes) <= ActiveIds()
    }

    function Local(): LocalState
      reads this
    {
      LocalState(poll, currentQuestion, students, responses, form, timeLeft)
    }

    /** The live results: the tally of the collected responses for the current question. */
    function Results(): (rows: seq<ResultRow>)
      reads this
      ensures |rows| == (if currentQuestion.Some? then |currentQuestion.value.options| else 0)
      ensures currentQuestion.Some? ==> SumCounts(rows) <= |responses|
    {
      if currentQuestion.Some? then TallyCountsSum(currentQuestion.value, responses); Tally(currentQuestion, responses)
      else Tally(currentQuestion, responses)
    }

    constructor ()
      ensures Valid()
      ensures poll == None && currentQuestion == None && timeLeft == None
      ensures students == [] && responses == [] && form == EmptyForm && writes == []
    {
      poll, currentQuestion, timeLeft := None, None, None;
      students, responses, form, writes := [], [], EmptyForm, [];
    }

    /** At most one question opened by this dashboard is open at any time. */
    lemma AtMostOneOpen()
      requires Valid()
      ensures |OpenIds(writes)| <= 1
    {
      var open := OpenIds(writes);
      if currentQuestion.Some? && currentQuestion.value.isActive {
        var id := currentQuestion.value.id;
        assert open == {} || open == {id};
      }
    }

    /**
     * Creating a poll with the generated `code`: on success the poll is the
     * stored record, open and titled; on a store error nothing changes.
     */
    method CreatePoll(code: string, created: Insert) returns (ok: bool)
      requires Valid()
      modifies this
      ensures Valid()
      ensures ok == created.Inserted?
      ensures poll == if ok then Some(Poll(created.id, code, PollTitle, true)) else old(poll)
      ensures Local() == old(Local()).(poll := poll) && writes == old(writes)
    {
      ok := created.Inserted?;
      if ok {
        poll := Some(Poll(created.id, code, PollTitle, true));
      }
    }

    method SetQuestionText(text: string)
      requires Valid()
      modifies this
      ensures Valid()
      ensures Local() == old(Local()).(form := old(form).(questionText := text)) && writes == old(writes)
    {
      form := form.(questionText := text);
    }

    method SetOption(slot: OptionSlot, value: string)
      requires Valid()
      modifies this
      ensures Valid()
      ensures form == match slot
        case SlotA => old(form).(optionA := value)
        case SlotB => old(form).(optionB := value)
        case SlotC => old(form).(optionC := value)
        case SlotD => old(form).(optionD := value)
      ensures Local() == old(Local()).(form := form) && writes == old(writes)
    {
      match slot
      case SlotA => form := form.(optionA := value);
      case SlotB => form := form.(optionB := value);
      case SlotC => form := form.(optionC := value);
      case SlotD => form := form.(optionD := value);
    }

    /** An edit of the time-limit field; `parsed` is the integer the text parses to, if any. */
    method SetTimeLimit(parsed: Option<int>)
      requires Valid()
      modifies this
      ensures Valid()
      ensures Local() == old(Local()).(form := old(form).(timeLimit := ParseTimeLimit(parsed)))
      ensures writes == old(writes)
    {
      form := form.(timeLimit := ParseTimeLimit(parsed));
    }

    /**
     * Starting a question from the form. Refused, with nothing changed,
     * without a poll or when the text, option A or option B is empty.
     * Otherwise an active current question is first asked to close; then
     * the store is asked to create the question with the non-blank options.
     * On success it is the current active question, the responses are
     * cleared, the countdown starts at the form's time limit and the form
     * is reset; on a store error the local state is as before.
     */
    method StartQuestion(inserted: Insert, now: int) returns (outcome: StartOutcome)
      requires Valid()
      modifies this
      ensures Valid()
      ensures !StartAllowed(old(poll).Some?, old(form)) ==>
        outcome == Refused && Local() == old(Local()) && writes == old(writes)
      ensures StartAllowed(old(poll).Some?, old(form)) && inserted.InsertFailed? ==>
        && outcome == StoreFailed && Local() == old(Local())
        && writes == old(writes) + CloseIfActive(old(currentQuestion), now)
      ensures StartAllowed(old(poll).Some?, old(form)) && inserted.Inserted? ==>
        && outcome == Started
        && currentQuestion == Some(NewQuestion(inserted.id, old(poll).value.id, old(form), now))
        && responses == []
        && timeLeft == Some(old(form).timeLimit)
        && form == EmptyForm
        && poll == old(poll) && students == old(students)
        && writes == old(writes) + CloseIfActive(old(currentQuestion), now) + [Opened(inserted.id)]
    {
      if !StartAllowed(poll.Some?, form) {
        outcome := Refused;
      } else if inserted.InsertFailed? {
        CloseLeavesNothingOpen(writes, currentQuestion, now);
        writes := writes + CloseIfActive(currentQuestion, now);
        outcome := StoreFailed;
      } else {
        var question := NewQuestion(inserted.id, poll.value.id, form, now);
        OpenLeavesOnlyNew(writes, currentQuestion, now, inserted.id);
        assert ActiveOf(Some(question)) == {inserted.id};
        writes := writes + CloseIfActive(currentQuestion, now) + [Opened(inserted.id)];
        currentQuestion := Some(question);
        responses := [];
        timeLeft := Some(form.timeLimit);
        form := EmptyForm;
        outcome := Started;
      }
    }

    /**
     * Ending the current question, early or at the end of the countdown:
     * without a question nothing happens; otherwise the store is asked to
     * close it, the local copy becomes inactive and the countdown stops.
     */
    method EndQuestion(now: int)
      requires Valid()
      modifies this
      ensures Valid()
      ensures old(currentQuestion).None? ==> Local() == old(Local()) && writes == old(writes)
      ensures old(currentQuestion).Some? ==>
        && Local() == old(Local()).(currentQuestion := Closed(old(currentQuestion)), timeLeft := None)
        && writes == old(writes) + [CloseRequested(old(currentQuestion).value.id, now)]
    {
      if currentQuestion.None? {
        return;
      }
      OpenIdsAppend(writes, CloseRequested(currentQuestion.value.id, now));
      writes := writes + [CloseRequested(currentQuestion.value.id, now)];
      currentQuestion := Closed(currentQuestion);
      timeLeft := None;
    }

    /**
     * One second of the countdown. A positive count goes down by one; the
     * step that brings it to 0 ends the question. Without a countdown, or
     * with a negative one, nothing happens.
     */
    method Tick(now: int)
      requires Valid()
      modifies this
      ensures Valid()
      ensures old(timeLeft).None? || old(timeLeft).value <= 0 ==>
        Local() == old(Local()) && writes == old(writes)
      ensures old(timeLeft).Some? && old(timeLeft).value > 1 ==>
        Local() == old(Local()).(timeLeft := Some(old(timeLeft).value - 1)) && writes == old(writes)
      ensures old(timeLeft) == Some(1) ==>
        && Local() == old(Local()).(currentQuestion := Closed(old(currentQuestion)), timeLeft := None)
        && writes == old(writes) + [CloseRequested(old(currentQuestion).value.id, now)]
    {
      if timeLeft.Some? && timeLeft.value > 0 {
        var next := timeLeft.value - 1;
        if next == 0 {
          // The count reaches 0 and the dashboard reacts at once by ending the question.
          EndQuestion(now);
        } else {
          timeLeft := Some(next);
        }
      }
    }

    /** A student joined this poll: the student is appended. Other polls' students are not seen. */
    method OnStudentInserted(s: Student)
      requires Valid()
      modifies this
      ensures Valid()
      ensures students == if old(poll).Some? && s.pollId == old(poll).value.id
        then old(students) + [s] else old(students)
      ensures Local() == old(Local()).(students := students) && writes == old(writes)
    {
      if poll.Some? && s.pollId == poll.value.id {
        students := students + [s];
      }
    }

    /**
     * A response was stored: it is appended exactly when it is for the
     * current question, active or already closed.
     */
    method OnResponseInserted(r: Response)
      requires Valid()
      modifies this
      ensures Valid()
      ensures responses == if old(poll).Some? && old(currentQuestion).Some? && r.questionId == old(currentQuestion).value.id
        then old(responses) + [r] else old(responses)
      ensures Local() == old(Local()).(responses := responses) && writes == old(writes)
    {
      if poll.Some? && currentQuestion.Some? && r.questionId == currentQuestion.value.id {
        responses := responses + [r];
      }
    }
  }

  /**
   * Ending a question twice leaves the dashboard's local state as ending it
   * once did. The store, though, is asked to close the question twice, and
   * the second request carries the later end time.
   */
  method EndQuestionTwice(d: TeacherDashboard, now: int, later: int) returns (once: LocalState)
    requires d.Valid()
    modifies d
    ensures d.Valid()
    ensures d.Local() == once
    ensures old(d.currentQuestion).Some? ==>
      once == old(d.Local()).(currentQuestion := Closed(old(d.currentQuestion)), timeLeft := None)
    ensures old(d.currentQuestion).Some? ==>
      d.writes == old(d.writes) + [CloseRequested(old(d.currentQuestion).value.id, now),
                                   CloseRequested(old(d.currentQuestion).value.id, later)]
    ensures old(d.currentQuestion).None? ==> d.writes == old(d.writes)
  {
    d.EndQuestion(now);
    once := d.Local();
    d.EndQuestion(later);
  }
}
