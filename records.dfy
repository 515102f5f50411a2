/**
 * The records a live poll session works with, as the store hands them out,
 * and the shapes of the store's replies. Every store call of the session
 * components is modelled by one of these replies, given as a parameter.
 */
module Records {

  datatype Option<+T> = None | Some(value: T)

  /** A poll session: its join code and whether it is open. */
  datatype Poll = Poll(id: string, code: string, title: string, isActive: bool)

  /**
   * One timed multiple-choice question. The position of an option in
   * `options` is its identity (letter A, B, ... by position).
   * `startedAt` is in milliseconds since the epoch.
   */
  datatype Question = Question(
    id: string,
    pollId: string,
    text: string,
    options: seq<string>,
    timeLimit: int,
    isActive: bool,
    startedAt: int)

  /** A joined participant. Two joins under the same name are two students. */
  datatype Student = Student(id: string, pollId: string, name: string, joinedAt: int)

  /** One submitted answer; `selectedOption` is a zero-based option index. */
  datatype Response = Response(
    id: string,
    questionId: string,
    studentId: string,
    selectedOption: int,
    submittedAt: int)

  /** Outcome of an insert: the id the store gave the new row, or an error. */
  datatype Insert = Inserted(id: string) | InsertFailed

  /** Outcome of a write whose reply carries no record. */
  datatype Ack = Acked | Rejected

  /** Outcome of a read: the rows the store holds, or an error. */
  datatype Reply<+T> = Rows(rows: seq<T>) | StoreDown

  /** The rows of `rows` that satisfy `keep`, in their original order. */
  function Where<T>(rows: seq<T>, keep: T -> bool): (r: seq<T>)
    ensures |r| <= |rows|
  {
    if rows == [] then []
    else if keep(rows[0]) then [rows[0]] + Where(rows[1..], keep)
    else Where(rows[1..], keep)
  }

  /** Number of rows satisfying `keep`. */
  function CountWhere<T>(rows: seq<T>, keep: T -> bool): nat
  {
    if rows == [] then 0
    else (if keep(rows[0]) then 1 else 0) + CountWhere(rows[1..], keep)
  }

  /** Where keeps exactly the rows that satisfy `keep`, as many as there are. */
  lemma {:induction false} WhereSpec<T>(rows: seq<T>, keep: T -> bool)
    ensures |Where(rows, keep)| == CountWhere(rows, keep)
    ensures forall x :: x in Where(rows, keep) ==> x in rows && keep(x)
    ensures forall x :: x in rows && keep(x) ==> x in Where(rows, keep)
  {
    if rows != [] {
      WhereSpec(rows[1..], keep);
      assert rows == [rows[0]] + rows[1..];
    }
  }

  /**
   * A "maybe single" query: no matching row gives null, exactly one gives
   * that row, and more than one is an error. Both null and the error come
   * back as None here, because every caller treats them alike.
   */
  function MaybeSingle<T>(rows: seq<T>, keep: T -> bool): (r: Option<T>)
    ensures r.Some? ==> r.value in rows && keep(r.value)
  {
    var hits := Where(rows, keep);
    if |hits| == 1 then
      WhereSpec(rows, keep);
      assert hits[0] in hits;
      Some(hits[0])
    else None
  }

  /** The query returns a row exactly when exactly one row matches. */
  lemma MaybeSingleFinds<T>(rows: seq<T>, keep: T -> bool)
    ensures MaybeSingle(rows, keep).Some? <==> CountWhere(rows, keep) == 1
  {
    WhereSpec(rows, keep);
  }
}
