/** The Express variant: the handler rules of the `/api/rsvp`, `/api/rsvps`,
    `/api/rsvp/:id` and `/api/comments` routes over a relational table,
    modelled as the sequence of its rows. */
module Api {
  import opened Text
  import opened Rsvp

  const SaveFailed: string := "Failed to save RSVP."
  const DeleteFailed: string := "Failed to delete RSVP."

  /** An HTTP status code and the JSON payload sent with it. */
  datatype Reply = Reply(status: int, body: Response)

  /** The values bound to the INSERT statement; the table itself assigns
      the id and the creation time. */
  datatype Insert = Insert(
    name: string,
    email: string,
    attendance: string,
    guests: int,
    dietary: string,
    message: string)

  /** What the submit route answers, and the row it asks the table to insert. */
  datatype Submitted = Submitted(reply: Reply, insert: Option<Insert>)

  /** POST `/api/rsvp`. `run` is the outcome of running the INSERT: the new
      row id, or None when the statement failed. */
  function Submit(body: Submission, run: Option<int>): (r: Submitted)
    ensures !HasRequiredFields(body) ==> r == Submitted(Reply(400, Failed(MissingFields)), None)
    ensures HasRequiredFields(body) && !Admissible(body) ==>
              r == Submitted(Reply(400, Failed(InvalidAttendance)), None)
    ensures r.reply.status == 400 <==> !Admissible(body)
    ensures Admissible(body) ==>
      && r.insert.Some?
      && var v := r.insert.value;
         && v.name == Trim(body.name.value)
         && v.email == Trim(body.email.value)
         && v.attendance == body.attendance.value
         && FollowsGuestRule(v.attendance, body.guests, v.guests)
         && v.dietary == Trim(OrEmpty(body.dietary))
         && v.message == Trim(OrEmpty(body.message))
    ensures Admissible(body) && run.Some? ==> r.reply == Reply(201, Saved(run.value, SavedMessage))
    ensures Admissible(body) && run.None? ==> r.reply == Reply(500, Failed(SaveFailed))
  {
    if !Truthy(body.name) || !Truthy(body.email) || !Truthy(body.attendance) then
      Submitted(Reply(400, Failed(MissingFields)), None)
    else if body.attendance.value !in [JoyfullyAccept, RegretfullyDecline] then
      Submitted(Reply(400, Failed(InvalidAttendance)), None)
    else
      var attendance := body.attendance.value;
      var guestCount := if attendance == JoyfullyAccept then OrOne(body.guests) else 0;
      var values := Insert(
        Trim(body.name.value),
        Trim(body.email.value),
        attendance,
        guestCount,
        Trim(Or(body.dietary, "")),
        Trim(Or(body.message, "")));
      match run
      case Some(rowid) => Submitted(Reply(201, Saved(rowid, SavedMessage)), Some(values))
      case None => Submitted(Reply(500, Failed(SaveFailed)), Some(values))
  }

  /** The statistics query with every SUM read as 0 on an empty table: each
      row adds one to the total, one to the column of its attendance, and
      its guests to the guest column when it accepts. */
  function StatsFold(rows: seq<Row>): (s: Stats)
    ensures s.total == |rows|
    ensures s.accepted == CountAttendance(rows, JoyfullyAccept)
    ensures s.declined == CountAttendance(rows, RegretfullyDecline)
    ensures s.totalGuests == AcceptedGuests(rows)
  {
    if |rows| == 0 then Stats(0, 0, 0, 0)
    else
      var s := StatsFold(rows[..|rows| - 1]);
      var row := rows[|rows| - 1];
      var accepts := row.attendance == JoyfullyAccept;
      Stats(
        s.total + 1,
        s.accepted + (if accepts then 1 else 0),
        s.declined + (if row.attendance == RegretfullyDecline then 1 else 0),
        s.totalGuests + (if accepts then row.guests else 0))
  }

  /** The statistics row as SQL computes it: COUNT(*) is 0 on an empty
      table, but a SUM over no rows is NULL (None). */
  datatype SqlStats = SqlStats(total: int, accepted: Option<int>, declined: Option<int>, totalGuests: Option<int>)

  /** The aggregate of GET `/api/rsvps`, as written. */
  function StatsQuery(rows: seq<Row>): (q: SqlStats)
    ensures q.total == |rows|
    ensures |rows| == 0 ==> q.accepted.None? && q.declined.None? && q.totalGuests.None?
    ensures |rows| > 0 ==>
      && q.accepted == Some(CountAttendance(rows, JoyfullyAccept))
      && q.declined == Some(CountAttendance(rows, RegretfullyDecline))
      && q.totalGuests == Some(AcceptedGuests(rows))
  {
    var s := StatsFold(rows);
    if |rows| == 0 then SqlStats(s.total, None, None, None)
    else SqlStats(s.total, Some(s.accepted), Some(s.declined), Some(s.totalGuests))
  }

  /** The table after `DELETE ... WHERE id = ?` and the number of rows it
      changed. */
  datatype Deletion = Deletion(table: seq<Row>, changes: nat)

  function DeleteWhere(table: seq<Row>, id: int): (d: Deletion)
    ensures |d.table| + d.changes == |table|
    ensures d.changes == 0 <==> forall j :: 0 <= j < |table| ==> table[j].id != Some(id)
    ensures d.changes == 0 ==> d.table == table
  {
    if |table| == 0 then Deletion([], 0)
    else
      var rest := DeleteWhere(table[1..], id);
      if table[0].id == Some(id) then Deletion(rest.table, rest.changes + 1)
      else Deletion([table[0]] + rest.table, rest.changes)
  }

  /** The status mapping of DELETE `/api/rsvp/:id`: `changes` is the number
      of rows the statement changed, or None when it failed. */
  function DeleteReply(changes: Option<nat>): (r: Reply)
    ensures r.status == 404 <==> changes == Some(0)
    ensures r.status == 404 ==> r.body == Failed(NotFound)
    ensures r.status == 200 <==> changes.Some? && changes.value > 0
    ensures r.status == 200 ==> r.body == Deleted(DeletedMessage)
    ensures r.status == 500 <==> changes.None?
    ensures r.status == 500 ==> r.body == Failed(DeleteFailed)
  {
    match changes
    case None => Reply(500, Failed(DeleteFailed))
    case Some(n) => if n == 0 then Reply(404, Failed(NotFound)) else Reply(200, Deleted(DeletedMessage))
  }

  /** The table after a request to the server, and the reply it sent. */
  datatype Routed = Routed(table: seq<Row>, reply: Reply)

  /** DELETE `/api/rsvp/:id` against the table: 404 exactly when no row
      carries the id, and otherwise every such row is gone. */
  function DeleteRoute(table: seq<Row>, id: int): (r: Routed)
    ensures r.reply.status == 404 <==> forall j :: 0 <= j < |table| ==> table[j].id != Some(id)
    ensures r.reply.status == 404 ==> r.table == table
    ensures r.reply.status != 404 ==> r.reply == Reply(200, Deleted(DeletedMessage)) && |r.table| < |table|
  {
    var d := DeleteWhere(table, id);
    Routed(d.table, DeleteReply(Some(d.changes)))
  }

  /** The comments query of GET `/api/comments`: the rows whose message is
      not the empty string, in table order. */
  function CommentsQuery(table: seq<Row>): (cs: seq<Comment>)
    ensures |cs| <= |table|
  {
    if |table| == 0 then []
    else
      var row := table[0];
      (if row.message != "" then [Comment(row.name, row.message, row.createdAt)] else []) + CommentsQuery(table[1..])
  }

  /** Every row of the table that carries the id is removed and every other
      row is kept. */
  lemma {:induction false} DeleteWhereMembers(table: seq<Row>, id: int)
    ensures forall x :: x in DeleteWhere(table, id).table <==> x in table && x.id != Some(id)
    decreases |table|
  {
    if |table| > 0 {
      DeleteWhereMembers(table[1..], id);
      assert forall x :: x in table <==> x == table[0] || x in table[1..];
    }
  }

  /** The comments query holds exactly the rows with a non-empty message. */
  lemma {:induction false} CommentsQueryMembers(table: seq<Row>)
    ensures forall c :: c in CommentsQuery(table) ==>
      exists x :: x in table && x.message != "" && c == Comment(x.name, x.message, x.createdAt)
    ensures forall x :: x in table && x.message != "" ==> Comment(x.name, x.message, x.createdAt) in CommentsQuery(table)
    decreases |table|
  {
    if |table| > 0 {
      var rest := CommentsQuery(table[1..]);
      CommentsQueryMembers(table[1..]);
      assert forall x :: x in table ==> x == table[0] || x in table[1..];
      forall c | c in CommentsQuery(table)
        ensures exists x :: x in table && x.message != "" && c == Comment(x.name, x.message, x.createdAt)
      {
        if c in rest {
          var x :| x in table[1..] && x.message != "" && c == Comment(x.name, x.message, x.createdAt);
          assert x in table;
        } else {
          assert table[0] in table;
        }
      }
    }
  }
}
