/**
 * The teacher's "Create Question" form and what starting a question makes
 * of it: the emptiness guard, the options that survive filtering, and the
 * time-limit field's fallback.
 */
module QuestionForm {
  import opened Records
  import opened Text

  datatype Form = Form(
    questionText: string,
    optionA: string,
    optionB: string,
    optionC: string,
    optionD: string,
    timeLimit: int)

  /** The form as it starts and as it is reset after a question starts. */
  const EmptyForm := Form("", "", "", "", "", DefaultTimeLimit)

  /** The default time limit, also used when the field does not parse or parses to 0. */
  const DefaultTimeLimit := 60

  /**
   * The time-limit field's value after an edit: the parsed integer, or the
   * default when the text does not parse (None) or parses to 0.
   */
  function ParseTimeLimit(parsed: Option<int>): (limit: int)
    ensures limit != 0
    ensures parsed.Some? && parsed.value != 0 ==> limit == parsed.value
    ensures parsed.None? || parsed.value == 0 ==> limit == DefaultTimeLimit
  {
    match parsed
    case Some(v) => if v != 0 then v else DefaultTimeLimit
    case None => DefaultTimeLimit
  }

  /**
   * The members of `xs` that are not all white space, in their original
   * order. A string is all white space exactly when it trims to "" (see
   * `TrimEmptyIffAllSpace`), so these are the members `filter(opt =>
   * opt.trim())` keeps.
   */
  function Keep(xs: seq<string>): (r: seq<string>)
    ensures |r| <= |xs|
  {
    if xs == [] then []
    else if AllSpace(xs[0]) then Keep(xs[1..])
    else [xs[0]] + Keep(xs[1..])
  }

  /** `r` can be obtained from `xs` by deleting elements. */
  predicate IsSubsequence(r: seq<string>, xs: seq<string>)
  {
    if r == [] then true
    else if xs == [] then false
    else (r[0] == xs[0] && IsSubsequence(r[1..], xs[1..])) || IsSubsequence(r, xs[1..])
  }

  /**
   * Keep removes exactly the blank members and nothing else: what it keeps
   * is not blank and in the original relative order, and every non-blank
   * value occurs in it as often as in the input.
   */
  lemma {:induction false} KeepSpec(xs: seq<string>)
    ensures forall i :: 0 <= i < |Keep(xs)| ==> !AllSpace(Keep(xs)[i])
    ensures IsSubsequence(Keep(xs), xs)
    ensures forall x :: multiset(Keep(xs))[x] == if AllSpace(x) then 0 else multiset(xs)[x]
  {
    if xs != [] {
      KeepSpec(xs[1..]);
      assert xs == [xs[0]] + xs[1..];
      assert multiset(xs) == multiset{xs[0]} + multiset(xs[1..]);
      if !AllSpace(xs[0]) {
        var r := Keep(xs);
        assert r[0] == xs[0] && r[1..] == Keep(xs[1..]);
      }
    }
  }

  /** The four option fields, in display order A, B, C, D. */
  function OptionFields(f: Form): seq<string>
  {
    [f.optionA, f.optionB, f.optionC, f.optionD]
  }

  /** The options a started question gets: the non-blank fields, in order. */
  function FilterOptions(f: Form): (options: seq<string>)
    ensures |options| <= 4
  {
    Keep(OptionFields(f))
  }

  /** A question gets only non-blank options, each field's value as often as it is typed. */
  lemma FilterOptionsSpec(f: Form)
    ensures forall i :: 0 <= i < |FilterOptions(f)| ==> !AllSpace(FilterOptions(f)[i])
    ensures IsSubsequence(FilterOptions(f), OptionFields(f))
    ensures forall x :: multiset(FilterOptions(f))[x] == if AllSpace(x) then 0 else multiset(OptionFields(f))[x]
  {
    KeepSpec(OptionFields(f));
  }

  /**
   * The question a start creates from form `f` in poll `pollId`, once the
   * store has given it `id`: the form's text and time limit, its non-blank
   * options, active and started `now`.
   */
  function NewQuestion(id: string, pollId: string, f: Form, now: int): (q: Question)
    ensures q.id == id && q.isActive && q.timeLimit == f.timeLimit
  {
    Question(id, pollId, f.questionText, FilterOptions(f), f.timeLimit, true, now)
  }

  /**
   * Starting a question is refused without a poll and when the question text
   * or option A or option B is the empty string. Blank but non-empty text
   * passes this test. An allowed start whose options A and B are not blank
   * gets at least two options.
   */
  predicate StartAllowed(hasPoll: bool, f: Form): (ok: bool)
    ensures ok ==> hasPoll
    ensures f.questionText == "" || f.optionA == "" || f.optionB == "" ==> !ok
    ensures ok && !AllSpace(f.optionA) && !AllSpace(f.optionB) ==> |FilterOptions(f)| >= 2
  {
    var passes := hasPoll && f.questionText != "" && f.optionA != "" && f.optionB != "";
    if !AllSpace(f.optionA) && !AllSpace(f.optionB) then FirstTwoKept(f); passes else passes
  }

  /** When options A and B are not blank they are the first two options. */
  lemma FirstTwoKept(f: Form)
    requires !AllSpace(f.optionA) && !AllSpace(f.optionB)
    ensures |FilterOptions(f)| >= 2
    ensures FilterOptions(f)[0] == f.optionA && FilterOptions(f)[1] == f.optionB
  {
    var xs := OptionFields(f);
    assert xs[1..][1..] == [f.optionC, f.optionD];
    assert Keep(xs) == [f.optionA] + ([f.optionB] + Keep(xs[1..][1..]));
  }

  /**
   * The guard tests emptiness, not blankness: an option A of one space
   * passes it and is then filtered out, so a question can start with a
   * single option.
   */
  lemma GuardAdmitsSingleOption()
    ensures var f := Form("Q?", " ", "B", "", "", 60);
      StartAllowed(true, f) && FilterOptions(f) == ["B"]
  {
    var f := Form("Q?", " ", "B", "", "", 60);
    var xs := OptionFields(f);
    assert !IsSpace("B"[0]);
    assert xs[1..] == ["B", "", ""];
    assert xs[1..][1..] == ["", ""];
    assert xs[1..][1..][1..] == [""];
    assert Keep(xs[1..][1..]) == [];
    assert Keep(xs) == ["B"];
  }

  /**
   * With options A and B both one space, the guard lets a question start
   * with no option at all.
   */
  lemma GuardAdmitsNoOption()
    ensures var f := Form("Q?", " ", " ", "", "", 60);
      StartAllowed(true, f) && FilterOptions(f) == []
  {
    var f := Form("Q?", " ", " ", "", "", 60);
    var xs := OptionFields(f);
    assert xs[1..] == [" ", "", ""];
    assert xs[1..][1..] == ["", ""];
    assert xs[1..][1..][1..] == [""];
    assert Keep(xs[1..][1..]) == [];
    assert Keep(xs) == [];
  }
}
