/** The RSVP record schema and the vocabulary both backends share: the two
    attendance values, the fixed response messages, the response payloads,
    and reference definitions of the counts the statistics report. */
module Rsvp {
  import opened Text

  const JoyfullyAccept: string := "Joyfully Accept"
  const RegretfullyDecline: string := "Regretfully Decline"

  const MissingFields: string := "Name, email, and attendance are required."
  const InvalidAttendance: string := "Invalid attendance value."
  const SavedMessage: string := "RSVP saved successfully."
  const IdRequired: string := "ID is required."
  const NotFound: string := "RSVP not found."
  const DeletedMessage: string := "RSVP deleted successfully."

  /** One stored RSVP, in column order: ID, Name, Email, Attendance, Guests,
      Dietary, Message, Created At. A sheet may hold rows whose ID cell is
      blank (`id == None`) or whose Name cell is empty. */
  datatype Row = Row(
    id: Option<int>,
    name: string,
    email: string,
    attendance: string,
    guests: int,
    dietary: string,
    message: string,
    createdAt: string)

  /** The fields of a submission as they arrive (query parameters or a
      decoded body). `guests` is already the result of `parseInt(guests, 10)`,
      with `None` for NaN. */
  datatype Submission = Submission(
    name: Option<string>,
    email: Option<string>,
    attendance: Option<string>,
    guests: Option<int>,
    dietary: Option<string>,
    message: Option<string>)

  datatype Stats = Stats(total: int, accepted: int, declined: int, totalGuests: int)

  /** One guestbook entry. */
  datatype Comment = Comment(name: string, message: string, createdAt: string)

  /** The payloads the services answer with. */
  datatype Response =
    | Saved(id: int, message: string)
    | Deleted(message: string)
    | Failed(error: string)
    | Listing(stats: Stats, rsvps: seq<Row>)
    | CommentList(comments: seq<Comment>)

  predicate LegalAttendance(a: string) {
    a == JoyfullyAccept || a == RegretfullyDecline
  }

  /** Name, email and attendance are all present and non-empty (checked on
      the raw, untrimmed values). */
  predicate HasRequiredFields(data: Submission) {
    Truthy(data.name) && Truthy(data.email) && Truthy(data.attendance)
  }

  /** A submission both backends store. */
  predicate Admissible(data: Submission) {
    HasRequiredFields(data) && LegalAttendance(data.attendance.value)
  }

  /** The guest count both backends promise: a decline counts no guests; an
      acceptance counts the parsed number when it is a non-zero number and
      one guest otherwise (absent, unparsable or zero). */
  predicate FollowsGuestRule(attendance: string, parsed: Option<int>, guests: int) {
    if attendance == RegretfullyDecline then guests == 0
    else if parsed.Some? && parsed.value != 0 then guests == parsed.value
    else guests == 1
  }

  /** No id appears on two rows (blank ids aside). */
  predicate UniqueIds(rows: seq<Row>) {
    forall i, j :: 0 <= i < j < |rows| && rows[i].id.Some? ==> rows[i].id != rows[j].id
  }

  /** Number of rows whose attendance is `a`. */
  function CountAttendance(rows: seq<Row>, a: string): (n: nat)
    ensures n <= |rows|
  {
    if |rows| == 0 then 0
    else CountAttendance(rows[..|rows| - 1], a) + (if rows[|rows| - 1].attendance == a then 1 else 0)
  }

  /** Sum of the guest counts of the accepting rows. */
  function AcceptedGuests(rows: seq<Row>): int {
    if |rows| == 0 then 0
    else
      var last := rows[|rows| - 1];
      AcceptedGuests(rows[..|rows| - 1]) + (if last.attendance == JoyfullyAccept then last.guests else 0)
  }

  /** Newest (last-appended) row first. */
  function Reverse<T>(s: seq<T>): (r: seq<T>)
    ensures |r| == |s|
    ensures forall i :: 0 <= i < |s| ==> r[i] == s[|s| - 1 - i]
  {
    if |s| == 0 then [] else Reverse(s[1..]) + [s[0]]
  }

  /** Counting one attendance value does not depend on where a row sits. */
  lemma {:induction false} CountAttendancePrepend(x: Row, rows: seq<Row>, a: string)
    ensures CountAttendance([x] + rows, a) == (if x.attendance == a then 1 else 0) + CountAttendance(rows, a)
    decreases |rows|
  {
    if |rows| > 0 {
      var init := rows[..|rows| - 1];
      assert ([x] + rows)[..|rows|] == [x] + init;
      CountAttendancePrepend(x, init, a);
    }
  }

  lemma {:induction false} AcceptedGuestsPrepend(x: Row, rows: seq<Row>)
    ensures AcceptedGuests([x] + rows) == (if x.attendance == JoyfullyAccept then x.guests else 0) + AcceptedGuests(rows)
    decreases |rows|
  {
    if |rows| > 0 {
      var init := rows[..|rows| - 1];
      assert ([x] + rows)[..|rows|] == [x] + init;
      AcceptedGuestsPrepend(x, init);
    }
  }

  /** Each count is the first row's share plus the count of the rest. */
  lemma {:induction false} CountAttendanceFront(rows: seq<Row>, a: string)
    requires |rows| > 0
    ensures CountAttendance(rows, a) == (if rows[0].attendance == a then 1 else 0) + CountAttendance(rows[1..], a)
  {
    assert rows == [rows[0]] + rows[1..];
    CountAttendancePrepend(rows[0], rows[1..], a);
  }

  lemma {:induction false} AcceptedGuestsFront(rows: seq<Row>)
    requires |rows| > 0
    ensures AcceptedGuests(rows) == (if rows[0].attendance == JoyfullyAccept then rows[0].guests else 0) + AcceptedGuests(rows[1..])
  {
    assert rows == [rows[0]] + rows[1..];
    AcceptedGuestsPrepend(rows[0], rows[1..]);
  }

  /** Appending a row adds that row's share to each count. */
  lemma CountAttendanceAppend(rows: seq<Row>, x: Row, a: string)
    ensures CountAttendance(rows + [x], a) == CountAttendance(rows, a) + (if x.attendance == a then 1 else 0)
  {
    assert (rows + [x])[..|rows|] == rows;
  }

  lemma AcceptedGuestsAppend(rows: seq<Row>, x: Row)
    ensures AcceptedGuests(rows + [x]) == AcceptedGuests(rows) + (if x.attendance == JoyfullyAccept then x.guests else 0)
  {
    assert (rows + [x])[..|rows|] == rows;
  }

  /** When every row carries one of the two legal values, every row that
      does not accept declines. */
  lemma {:induction false} LegalRowsSplit(rows: seq<Row>)
    requires forall i :: 0 <= i < |rows| ==> LegalAttendance(rows[i].attendance)
    ensures CountAttendance(rows, JoyfullyAccept) + CountAttendance(rows, RegretfullyDecline) == |rows|
  {
    if |rows| > 0 {
      LegalRowsSplit(rows[..|rows| - 1]);
    }
  }
}
