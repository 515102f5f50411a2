/**
 * One session from both sides: a teacher opens poll XYZ123, a student
 * joins it by typing the code in lower case, the teacher asks a two-option
 * question with a 30-second limit, the student answers the second option,
 * the countdown runs out, and a submit after the close is not sent.
 */
module SessionScenario {
  import opened Records
  import opened Text
  import opened LiveResults
  import opened QuestionForm
  import opened TeacherSession
  import opened StudentSession

  /** The code typed in lower case is kept, and looked up, as XYZ123. */
  lemma TypedCode()
    ensures ToUpper(Trim("xyz123")) == "XYZ123"
    ensures NormalizeCode(ToUpper(Trim("xyz123"))) == "XYZ123"
    ensures Trim("Ann") == "Ann" && Trim("xyz123") != [] && Trim("Ann") != []
  {
    assert TrimStart("xyz123") == "xyz123" && TrimEnd("xyz123") == "xyz123";
    assert TrimStart("Ann") == "Ann" && TrimEnd("Ann") == "Ann";
    assert ToUpper("xyz123") == "XYZ123";
    KeptCodeIsLookedUp("xyz123");
  }

  /** The form of the color question keeps both of its options. */
  lemma ColorOptions()
    ensures FilterOptions(Form("Color?", "Red", "Blue", "", "", 30)) == ["Red", "Blue"]
  {
    var xs := OptionFields(Form("Color?", "Red", "Blue", "", "", 30));
    assert !IsSpace("Red"[0]) && !IsSpace("Blue"[0]);
    assert xs[1..] == ["Blue", "", ""];
    assert xs[1..][1..] == ["", ""];
    assert xs[1..][1..][1..] == [""];
    assert Keep(xs[1..][1..]) == [];
  }

  /** One answer for option B gives B all of the responses and A none. */
  lemma ColorResults(q: Question, r: Response)
    requires q.options == ["Red", "Blue"] && r.selectedOption == 1
    ensures Tally(Some(q), [r]) == [ResultRow('A', "Red", 0, 0.0), ResultRow('B', "Blue", 1, 100.0)]
  {
    assert Selections([r]) == [1];
    PercentageWhole(1);
    var rows := Tally(Some(q), [r]);
    assert rows[0] == ResultRow('A', "Red", 0, 0.0);
    assert rows[1] == ResultRow('B', "Blue", 1, 100.0);
  }

  /** The first question of the scenario, as the teacher creates it. */
  const ColorQuestionRecord := Question("question-1", "poll-1", "Color?", ["Red", "Blue"], 30, true, 1000)

  /** Ann's name and the code she typed pass the join handler's check. */
  lemma AnnCanJoin()
    ensures Trim("Ann") == "Ann" && ToUpper(Trim("xyz123")) == "XYZ123"
    ensures JoinFieldsFilled("Ann", "XYZ123") && NormalizeCode("XYZ123") == "XYZ123"
  {
    TypedCode();
    TrimEmptyIffAllSpace("Ann");
    TrimEmptyIffAllSpace("XYZ123");
  }

  /** Ann joins poll XYZ123 by typing "xyz123". */
  method Join(thePoll: Poll) returns (student: StudentInterface)
    requires thePoll == Poll("poll-1", "XYZ123", PollTitle, true)
    ensures fresh(student) && student.Valid()
    ensures student.poll == Some(thePoll) && student.student == Some(Student("student-1", "poll-1", "Ann", 0))
    ensures student.currentQuestion.None? && student.timeLeft.None? && !student.hasAnswered
  {
    student := new StudentInterface();
    AnnCanJoin();
    student.SetStudentName("Ann");
    student.SetPollCode("xyz123");
    assert student.studentName == "Ann" && student.pollCode == "XYZ123";
    assert CountWhere([thePoll], CodeIs("XYZ123")) == 1;
    FindPollFinds(Rows([thePoll]), "XYZ123");
    var joined := student.JoinPoll(Rows([thePoll]), Inserted("student-1"), Rows([]), 0);
  }

  /** The teacher opens poll XYZ123 and Ann joins it. */
  method OpenAndJoin() returns (teacher: TeacherDashboard, student: StudentInterface)
    ensures fresh(teacher) && fresh(student)
    ensures teacher.Valid() && student.Valid()
    ensures teacher.poll == Some(Poll("poll-1", "XYZ123", PollTitle, true))
    ensures |teacher.students| == 1 && teacher.currentQuestion.None? && teacher.form == EmptyForm
    ensures student.poll == teacher.poll && student.student == Some(Student("student-1", "poll-1", "Ann", 0))
    ensures student.currentQuestion.None? && student.timeLeft.None? && !student.hasAnswered
  {
    teacher := new TeacherDashboard();
    var ok := teacher.CreatePoll("XYZ123", Inserted("poll-1"));
    student := Join(Poll("poll-1", "XYZ123", PollTitle, true));
    teacher.OnStudentInserted(student.student.value);
  }

  /** The teacher fills in "Color?" with options Red and Blue for 30 seconds and starts it. */
  method Ask(teacher: TeacherDashboard)
    requires teacher.Valid()
    requires teacher.poll == Some(Poll("poll-1", "XYZ123", PollTitle, true)) && teacher.form == EmptyForm
    modifies teacher
    ensures teacher.Valid() && teacher.poll == old(teacher.poll)
    ensures teacher.currentQuestion == Some(ColorQuestionRecord) && teacher.timeLeft == Some(30)
    ensures teacher.responses == []
  {
    teacher.SetQuestionText("Color?");
    teacher.SetOption(SlotA, "Red");
    teacher.SetOption(SlotB, "Blue");
    teacher.SetTimeLimit(Some(30));
    assert teacher.form == Form("Color?", "Red", "Blue", "", "", 30);
    ColorOptions();
    var started := teacher.StartQuestion(Inserted("question-1"), 1000);
  }

  /** Ann sees the question, picks Blue and submits it; the teacher receives her response. */
  method Answer(teacher: TeacherDashboard, student: StudentInterface) returns (results: seq<ResultRow>)
    requires teacher.Valid() && student.Valid()
    requires teacher.poll.Some? && teacher.currentQuestion == Some(ColorQuestionRecord) && teacher.responses == []
    requires student.poll == Some(Poll("poll-1", "XYZ123", PollTitle, true))
    requires student.student == Some(Student("student-1", "poll-1", "Ann", 0))
    modifies teacher, student
    ensures teacher.Valid() && student.Valid()
    ensures results == [ResultRow('A', "Red", 0, 0.0), ResultRow('B', "Blue", 1, 100.0)]
    ensures teacher.currentQuestion == old(teacher.currentQuestion) && teacher.timeLeft == old(teacher.timeLeft)
    ensures student.currentQuestion == Some(ColorQuestionRecord) && student.timeLeft == Some(30)
    ensures student.hasAnswered && student.submissions == old(student.submissions) + [Submission("question-1", "student-1", 1)]
  {
    student.OnQuestionInserted(ColorQuestionRecord);
    student.SelectAnswer(1);
    var submitted := student.Submit(Acked);
    var response := Response("response-1", "question-1", "student-1", 1, 2000);
    teacher.OnResponseInserted(response);
    assert teacher.responses == [response];
    results := teacher.Results();
    ColorResults(ColorQuestionRecord, response);
  }

  /** Thirty seconds pass on both sides: the teacher ends the question and Ann's countdown shows 0. */
  method RunOut(teacher: TeacherDashboard, student: StudentInterface)
    requires teacher.Valid() && student.Valid()
    requires teacher.currentQuestion == Some(ColorQuestionRecord) && teacher.timeLeft == Some(30)
    requires student.currentQuestion == Some(ColorQuestionRecord) && student.timeLeft == Some(30)
    modifies teacher, student
    ensures teacher.Valid() && student.Valid()
    ensures teacher.currentQuestion == Some(ColorQuestionRecord.(isActive := false)) && teacher.timeLeft.None?
    ensures student.currentQuestion == Some(ColorQuestionRecord) && student.timeLeft == Some(0)
    ensures student.hasAnswered
  {
    var seconds := 0;
    while seconds < 30
      invariant 0 <= seconds <= 30
      invariant teacher.Valid() && student.Valid()
      invariant seconds < 30 ==> teacher.currentQuestion == Some(ColorQuestionRecord) && teacher.timeLeft == Some(30 - seconds)
      invariant seconds == 30 ==> teacher.currentQuestion == Some(ColorQuestionRecord.(isActive := false)) && teacher.timeLeft.None?
      invariant student.currentQuestion == Some(ColorQuestionRecord) && student.timeLeft == Some(30 - seconds)
      invariant seconds == 30 ==> student.hasAnswered
    {
      teacher.Tick(1000 + 1000 * (seconds + 1));
      student.Tick();
      seconds := seconds + 1;
    }
  }

  /**
   * The whole session: one student seen by the teacher, results A 0 and
   * B 1 (100 percent), the question closed after 30 seconds and answered
   * on the student's side, and a submit after the close event reached the
   * student not sent.
   */
  method ColorQuestion() returns (studentsSeen: nat, results: seq<ResultRow>, closedAtTeacher: bool,
                                  answeredAtStudent: bool, lateSubmit: SubmitOutcome)
    ensures studentsSeen == 1
    ensures results == [ResultRow('A', "Red", 0, 0.0), ResultRow('B', "Blue", 1, 100.0)]
    ensures closedAtTeacher && answeredAtStudent
    ensures lateSubmit == NotReady
  {
    var teacher, student := OpenAndJoin();
    studentsSeen := |teacher.students|;
    Ask(teacher);
    results := Answer(teacher, student);
    RunOut(teacher, student);
    closedAtTeacher := !teacher.currentQuestion.value.isActive;
    answeredAtStudent := student.hasAnswered;
    student.OnQuestionUpdated(ColorQuestionRecord.(isActive := false));
    lateSubmit := student.Submit(Acked);
  }
}
