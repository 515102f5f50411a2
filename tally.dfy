/**
 * The live results of the teacher's dashboard: one row per option of the
 * current question, with the option's letter, its text, how many collected
 * responses chose it and what share of all collected responses that is.
 * Percentages are exact rationals here.
 */
module LiveResults {
  import opened Records

  datatype ResultRow = ResultRow(letter: char, text: string, count: nat, percentage: real)

  /**
   * The display letter of option `index`: the UTF-16 code unit 65 + index,
   * taken modulo 2^16 ('A' for 0). A code unit in the surrogate range is not
   * a character of its own and becomes U+FFFD.
   */
  function Letter(index: nat): (c: char)
    ensures index < 26 ==> c as int == 'A' as int + index && 'A' <= c <= 'Z'
  {
    var unit := (65 + index) % 0x1_0000;
    if unit < 0xD800 || 0xE000 <= unit then unit as char else 0xFFFD as char
  }

  /** Number of responses that chose option `index`. */
  function CountSelected(rs: seq<Response>, index: int): nat
  {
    if rs == [] then 0
    else (if rs[0].selectedOption == index then 1 else 0) + CountSelected(rs[1..], index)
  }

  /** The chosen option index of every response, in order. */
  function Selections(rs: seq<Response>): (s: seq<int>)
    ensures |s| == |rs| && forall j :: 0 <= j < |rs| ==> s[j] == rs[j].selectedOption
  {
    seq(|rs|, j requires 0 <= j < |rs| => rs[j].selectedOption)
  }

  /** The count of option `index` is its multiplicity among the selections. */
  lemma {:induction false} CountIsMultiplicity(rs: seq<Response>, index: int)
    ensures CountSelected(rs, index) == multiset(Selections(rs))[index]
  {
    if rs != [] {
      CountIsMultiplicity(rs[1..], index);
      assert Selections(rs) == [rs[0].selectedOption] + Selections(rs[1..]);
    }
  }

  /** `count` as a percentage of `total`; 0 when there is nothing to count. */
  function Percentage(count: nat, total: nat): (p: real)
    ensures total == 0 ==> p == 0.0
    ensures total > 0 ==> p * total as real == count as real * 100.0
  {
    if total > 0 then
      var t := total as real;
      assert count as real / t * 100.0 * t == count as real * 100.0;
      count as real / t * 100.0
    else 0.0
  }

  /** Shares of one total add up. */
  lemma PercentageAdd(a: nat, b: nat, total: nat)
    ensures Percentage(a, total) + Percentage(b, total) == Percentage(a + b, total)
  {
    if total > 0 {
      var t := total as real;
      assert (a as real / t) + (b as real / t) == (a + b) as real / t;
    }
  }

  /** The whole of a positive total is 100 percent. */
  lemma PercentageWhole(total: nat)
    requires total > 0
    ensures Percentage(total, total) == 100.0
  {
    var t := total as real;
    assert t / t == 1.0;
  }

  function Row(options: seq<string>, rs: seq<Response>, index: nat): (row: ResultRow)
    requires index < |options|
    ensures row.count == multiset(Selections(rs))[index]
    ensures row.percentage == Percentage(row.count, |rs|)
  {
    CountIsMultiplicity(rs, index);
    var count := CountSelected(rs, index);
    ResultRow(Letter(index), options[index], count, Percentage(count, |rs|))
  }

  /**
   * The results for the current question `q` (none without a question):
   * one row per option, in option order; row i is labelled with letter i and
   * the i-th option's text, counts the responses whose selection is i, and
   * carries that count as a share of all responses, or 0 when there are none.
   */
  function Tally(q: Option<Question>, rs: seq<Response>): (rows: seq<ResultRow>)
    ensures q.None? ==> rows == []
    ensures q.Some? ==> |rows| == |q.value.options|
    ensures forall i :: 0 <= i < |rows| ==>
      && rows[i].letter == Letter(i)
      && rows[i].text == q.value.options[i]
      && rows[i].count == multiset(Selections(rs))[i]
      && rows[i].percentage == Percentage(rows[i].count, |rs|)
  {
    match q
    case None => []
    case Some(question) =>
      seq(|question.options|, i requires 0 <= i < |question.options| => Row(question.options, rs, i))
  }

  function SumCounts(rows: seq<ResultRow>): nat
  {
    if rows == [] then 0 else SumCounts(rows[..|rows| - 1]) + rows[|rows| - 1].count
  }

  function SumPercentages(rows: seq<ResultRow>): real
  {
    if rows == [] then 0.0 else SumPercentages(rows[..|rows| - 1]) + rows[|rows| - 1].percentage
  }

  /** Number of responses whose selection is an option index below `n`. */
  function InRange(rs: seq<Response>, n: nat): (k: nat)
    ensures k <= |rs|
  {
    if rs == [] then 0
    else (if 0 <= rs[0].selectedOption < n then 1 else 0) + InRange(rs[1..], n)
  }

  lemma {:induction false} InRangeStep(rs: seq<Response>, n: nat)
    ensures InRange(rs, n + 1) == InRange(rs, n) + CountSelected(rs, n)
  {
    if rs != [] {
      InRangeStep(rs[1..], n);
    }
  }

  lemma {:induction false} InRangeZero(rs: seq<Response>)
    ensures InRange(rs, 0) == 0
  {
    if rs != [] {
      InRangeZero(rs[1..]);
    }
  }

  /** When every selection is an option index below `n`, all responses are in range. */
  lemma {:induction false} InRangeAll(rs: seq<Response>, n: nat)
    requires forall j :: 0 <= j < |rs| ==> 0 <= rs[j].selectedOption < n
    ensures InRange(rs, n) == |rs|
  {
    if rs != [] {
      InRangeAll(rs[1..], n);
    }
  }

  lemma {:induction false} PrefixCounts(q: Question, rs: seq<Response>, k: nat)
    requires k <= |q.options|
    ensures SumCounts(Tally(Some(q), rs)[..k]) == InRange(rs, k)
  {
    var rows := Tally(Some(q), rs);
    if k > 0 {
      PrefixCounts(q, rs, k - 1);
      var pre := rows[..k];
      assert pre[..k - 1] == rows[..k - 1];
      assert pre[k - 1] == rows[k - 1];
      assert SumCounts(pre) == SumCounts(rows[..k - 1]) + rows[k - 1].count;
      InRangeStep(rs, k - 1);
      CountIsMultiplicity(rs, k - 1);
    } else {
      InRangeZero(rs);
      assert rows[..0] == [];
    }
  }

  /**
   * The counts add up to the number of responses whose selection is a valid
   * option index: at most all responses, and exactly all of them when every
   * selection is in range.
   */
  lemma TallyCountsSum(q: Question, rs: seq<Response>)
    ensures SumCounts(Tally(Some(q), rs)) == InRange(rs, |q.options|) <= |rs|
    ensures (forall j :: 0 <= j < |rs| ==> 0 <= rs[j].selectedOption < |q.options|)
      ==> SumCounts(Tally(Some(q), rs)) == |rs|
  {
    var rows := Tally(Some(q), rs);
    PrefixCounts(q, rs, |q.options|);
    assert rows[..|q.options|] == rows;
    if forall j :: 0 <= j < |rs| ==> 0 <= rs[j].selectedOption < |q.options| {
      InRangeAll(rs, |q.options|);
    }
  }

  lemma {:induction false} PrefixPercentages(q: Question, rs: seq<Response>, k: nat)
    requires k <= |q.options|
    ensures SumPercentages(Tally(Some(q), rs)[..k]) == Percentage(InRange(rs, k), |rs|)
  {
    var rows := Tally(Some(q), rs);
    if k > 0 {
      PrefixPercentages(q, rs, k - 1);
      var pre := rows[..k];
      assert pre[..k - 1] == rows[..k - 1];
      assert pre[k - 1] == rows[k - 1];
      InRangeStep(rs, k - 1);
      CountIsMultiplicity(rs, k - 1);
      PercentageAdd(InRange(rs, k - 1), CountSelected(rs, k - 1), |rs|);
    } else {
      InRangeZero(rs);
      assert rows[..0] == [];
    }
  }

  /**
   * With at least one response and every selection a valid option index,
   * the percentages add up to exactly 100; without responses they add up to 0.
   */
  lemma TallyPercentagesSum(q: Question, rs: seq<Response>)
    ensures rs != [] && (forall j :: 0 <= j < |rs| ==> 0 <= rs[j].selectedOption < |q.options|)
      ==> SumPercentages(Tally(Some(q), rs)) == 100.0
    ensures rs == [] ==> SumPercentages(Tally(Some(q), rs)) == 0.0
  {
    var rows := Tally(Some(q), rs);
    PrefixPercentages(q, rs, |q.options|);
    assert rows[..|q.options|] == rows;
    if rs != [] && (forall j :: 0 <= j < |rs| ==> 0 <= rs[j].selectedOption < |q.options|) {
      InRangeAll(rs, |q.options|);
      PercentageWhole(|rs|);
    }
  }

}
