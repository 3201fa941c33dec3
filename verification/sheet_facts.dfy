/** Properties that relate several sheet operations: what a listing or the
    guestbook shows after a submission, the invariant every reachable sheet
    keeps, and the places where the code allows what one might expect it to
    rule out (reused ids, negative guest counts, blank names). */
module SheetFacts {
  import opened Text
  import opened Rsvp
  import opened Sheet

  /** The listing holds exactly the rows of the sheet with a non-empty name. */
  lemma {:induction false} VisibleMembers(sheet: seq<Row>)
    ensures forall x :: x in Visible(sheet) <==> x in sheet && x.name != ""
    decreases |sheet|
  {
    if |sheet| > 0 {
      VisibleMembers(sheet[1..]);
      assert sheet == [sheet[0]] + sheet[1..];
    }
  }

  /** `c` is the entry `getComments` makes of some row of `sheet`. */
  predicate CommentFrom(c: Comment, sheet: seq<Row>) {
    exists x :: x in sheet && HasMessage(x) && c == CommentOf(x)
  }

  /** Every guestbook entry has a trimmed, non-empty message and comes from
      a row of the sheet whose trimmed message is not empty. */
  lemma {:induction false} CommentsSound(sheet: seq<Row>)
    ensures forall c :: c in CommentsOf(sheet) ==> c.message != "" && Trimmed(c.message) && CommentFrom(c, sheet)
    decreases |sheet|
  {
    if |sheet| > 0 {
      var rest := CommentsOf(sheet[1..]);
      CommentsSound(sheet[1..]);
      forall c | c in CommentsOf(sheet)
        ensures c.message != "" && Trimmed(c.message) && CommentFrom(c, sheet)
      {
        if c in rest {
          var x :| x in sheet[1..] && HasMessage(x) && c == CommentOf(x);
          assert x in sheet;
        } else {
          assert sheet[0] in sheet;
        }
      }
    }
  }

  /** Every row whose trimmed message is not empty has its entry in the
      guestbook, whether or not its name is blank. */
  lemma {:induction false} CommentsComplete(sheet: seq<Row>)
    ensures forall x :: x in sheet && HasMessage(x) ==> CommentOf(x) in CommentsOf(sheet)
    decreases |sheet|
  {
    if |sheet| > 0 {
      CommentsComplete(sheet[1..]);
      assert forall x :: x in sheet ==> x == sheet[0] || x in sheet[1..];
    }
  }

  /** Appending a row puts it at the head of the listing when it is named
      and leaves the listing alone otherwise: the listing is newest first. */
  lemma {:induction false} VisibleAppend(sheet: seq<Row>, row: Row)
    ensures Visible(sheet + [row]) == (if row.name != "" then [row] else []) + Visible(sheet)
    decreases |sheet|
  {
    if |sheet| == 0 {
      assert sheet + [row] == [row];
    } else {
      assert (sheet + [row])[1..] == sheet[1..] + [row];
      VisibleAppend(sheet[1..], row);
    }
  }

  /** The guestbook is newest first too. */
  lemma {:induction false} CommentsAppend(sheet: seq<Row>, row: Row)
    ensures CommentsOf(sheet + [row]) == (if HasMessage(row) then [CommentOf(row)] else []) + CommentsOf(sheet)
    decreases |sheet|
  {
    if |sheet| == 0 {
      assert sheet + [row] == [row];
    } else {
      var longer := sheet + [row];
      assert longer[0] == sheet[0] && longer[1..] == sheet[1..] + [row];
      CommentsAppend(sheet[1..], row);
    }
  }

  /** Appending a row to the sheet moves the statistics by that row alone,
      and only when it is named. */
  lemma AppendThenList(sheet: seq<Row>, row: Row)
    ensures var named := row.name != "";
      var accepts := named && row.attendance == JoyfullyAccept;
      var s0 := GetRsvps(sheet).stats;
      var s1 := GetRsvps(sheet + [row]).stats;
      && GetRsvps(sheet + [row]).rsvps == (if named then [row] else []) + GetRsvps(sheet).rsvps
      && s1.total == s0.total + (if named then 1 else 0)
      && s1.accepted == s0.accepted + (if accepts then 1 else 0)
      && s1.declined == s0.declined + (if named && !accepts then 1 else 0)
      && s1.totalGuests == s0.totalGuests + (if accepts then row.guests else 0)
  {
    VisibleAppend(sheet, row);
    var v0 := Visible(sheet);
    if row.name != "" {
      CountAttendancePrepend(row, v0, JoyfullyAccept);
      AcceptedGuestsPrepend(row, v0);
    } else {
      assert Visible(sheet + [row]) == v0;
    }
  }

  /** After a successful submission the listing gains the new row at its
      head exactly when its (trimmed) name is not empty, and the statistics
      move by that row alone. */
  lemma {:induction false} AddThenList(sheet: seq<Row>, data: Submission, createdAt: string)
    requires Admissible(data)
    ensures var after := AddRsvp(sheet, data, createdAt).sheet;
      var row := after[|sheet|];
      var named := row.name != "";
      var accepts := named && row.attendance == JoyfullyAccept;
      var s0 := GetRsvps(sheet).stats;
      var s1 := GetRsvps(after).stats;
      && GetRsvps(after).rsvps == (if named then [row] else []) + GetRsvps(sheet).rsvps
      && s1.total == s0.total + (if named then 1 else 0)
      && s1.accepted == s0.accepted + (if accepts then 1 else 0)
      && s1.declined == s0.declined + (if named && !accepts then 1 else 0)
      && s1.totalGuests == s0.totalGuests + (if accepts then row.guests else 0)
  {
    var after := AddRsvp(sheet, data, createdAt).sheet;
    var row := after[|sheet|];
    assert after == sheet + [row];
    AppendThenList(sheet, row);
  }

  /** After a successful submission the guestbook gains the new row's entry
      at its head exactly when its trimmed message is not empty. */
  lemma AddThenComments(sheet: seq<Row>, data: Submission, createdAt: string)
    requires Admissible(data)
    ensures var after := AddRsvp(sheet, data, createdAt).sheet;
      var msg := Trim(OrEmpty(data.message));
      GetComments(after).comments ==
        (if msg != "" then [Comment(Trim(data.name.value), msg, createdAt)] else []) + GetComments(sheet).comments
  {
    var after := AddRsvp(sheet, data, createdAt).sheet;
    var row := after[|sheet|];
    assert after == sheet + [row];
    CommentsAppend(sheet, row);
  }

  /** The presence check looks at the untrimmed name, so a name made only of
      white space is accepted, stored as the empty string, and the listing
      does not show it. */
  lemma {:induction false} BlankNameStoredButUnlisted(sheet: seq<Row>, data: Submission, createdAt: string)
    requires Admissible(data) && AllSpace(data.name.value)
    ensures var r := AddRsvp(sheet, data, createdAt);
      && r.response.Saved?
      && r.sheet[|sheet|].name == ""
      && GetRsvps(r.sheet) == GetRsvps(sheet)
  {
    AddThenList(sheet, data, createdAt);
  }

  /** A row that only a successful submission could have written. */
  predicate WellFormedRow(row: Row) {
    && row.id.Some?
    && LegalAttendance(row.attendance)
    && (row.attendance == RegretfullyDecline ==> row.guests == 0)
    && (row.attendance == JoyfullyAccept ==> row.guests != 0)
    && Trimmed(row.name)
    && Trimmed(row.email)
    && Trimmed(row.dietary)
    && Trimmed(row.message)
  }

  /** Holds of every sheet built from an empty one by submissions and
      deletions: an invariant those operations keep, not a description of
      exactly the sheets they can build (ids 5 then 3 satisfy it). */
  predicate Consistent(sheet: seq<Row>) {
    && (forall i :: 0 <= i < |sheet| ==> WellFormedRow(sheet[i]))
    && UniqueIds(sheet)
  }

  lemma EmptyConsistent()
    ensures Consistent([])
  {
  }

  /** Appending a well-formed row with a fresh id keeps the sheet
      consistent. */
  lemma AppendKeepsConsistent(sheet: seq<Row>, row: Row)
    requires Consistent(sheet) && WellFormedRow(row)
    requires forall i :: 0 <= i < |sheet| && sheet[i].id.Some? ==> sheet[i].id.value < row.id.value
    ensures Consistent(sheet + [row])
  {
    var t := sheet + [row];
    assert forall a :: 0 <= a < |sheet| ==> t[a] == sheet[a];
  }

  /** A submission keeps the sheet consistent: the new row is well formed
      and its id is fresh. */
  lemma AddKeepsConsistent(sheet: seq<Row>, data: Submission, createdAt: string)
    requires Consistent(sheet)
    ensures Consistent(AddRsvp(sheet, data, createdAt).sheet)
  {
    var r := AddRsvp(sheet, data, createdAt);
    if Admissible(data) {
      var row := r.sheet[|sheet|];
      assert r.sheet == sheet + [row];
      AppendKeepsConsistent(sheet, row);
    }
  }

  /** Taking one row out of a consistent sheet leaves it consistent. */
  lemma RemoveKeepsConsistent(sheet: seq<Row>, i: int)
    requires Consistent(sheet) && 0 <= i < |sheet|
    ensures Consistent(sheet[..i] + sheet[i + 1..])
  {
    var t := sheet[..i] + sheet[i + 1..];
    assert forall a :: 0 <= a < |t| ==> t[a] == sheet[if a < i then a else a + 1];
  }

  /** A deletion keeps the sheet consistent. */
  lemma DeleteKeepsConsistent(sheet: seq<Row>, id: Option<int>)
    requires Consistent(sheet)
    ensures Consistent(DeleteRsvp(sheet, id).sheet)
  {
    var r := DeleteRsvp(sheet, id);
    if r.response.Deleted? {
      var i :| 0 <= i < |sheet| && r.sheet == sheet[..i] + sheet[i + 1..];
      RemoveKeepsConsistent(sheet, i);
    }
  }

  /** A successful deletion shortens the sheet by one row; a failed one
      leaves it as it was. */
  lemma DeleteShrinksByOne(sheet: seq<Row>, id: Option<int>)
    ensures var r := DeleteRsvp(sheet, id);
      && (r.response.Deleted? ==> |r.sheet| == |sheet| - 1)
      && (r.response.Failed? ==> r.sheet == sheet)
  {
  }

  /** Ids are not unique across time: deleting the row that holds the
      largest id lets the next submission take that id again. */
  lemma IdReusedAfterDelete(r6: Row, r7: Row, data: Submission, createdAt: string)
    requires r6.id == Some(6) && r7.id == Some(7) && Admissible(data)
    ensures NextId([r6, r7]) == 8
    ensures DeleteRsvp([r6, r7], Some(7)).sheet == [r6]
    ensures AddRsvp(DeleteRsvp([r6, r7], Some(7)).sheet, data, createdAt).response == Saved(7, SavedMessage)
  {
    assert FirstWithId([r6, r7], 7) == Some(1);
    assert [r6, r7][..1] + [r6, r7][2..] == [r6];
    assert NextId([r6]) == 7;
  }

  /** The guest count is not forced to be non-negative: a parsed negative
      count with an acceptance is stored as it is. */
  lemma NegativeGuestsKept(sheet: seq<Row>, data: Submission, createdAt: string)
    requires Admissible(data) && data.attendance.value == JoyfullyAccept && data.guests == Some(-2)
    ensures AddRsvp(sheet, data, createdAt).sheet[|sheet|].guests == -2
  {
  }

  /** Only a "rsvp" or "delete" action changes the sheet on a GET. */
  lemma ReadActionsKeepSheet(sheet: seq<Row>, req: Request, createdAt: string, json: Response -> string)
    requires Or(req.action, "rsvps") != "rsvp" && Or(req.action, "rsvps") != "delete"
    ensures DoGet(sheet, req, createdAt, json).sheet == sheet
    ensures DoGet(sheet, req, createdAt, json).response.Listing? || DoGet(sheet, req, createdAt, json).response.CommentList?
  {
  }

  /** A GET with no action lists the RSVPs. */
  lemma MissingActionLists(sheet: seq<Row>, req: Request, createdAt: string, json: Response -> string)
    requires !Truthy(req.action)
    ensures DoGet(sheet, req, createdAt, json).response == GetRsvps(sheet)
  {
  }

  /** A POST with no action submits. */
  lemma MissingActionSubmits(sheet: seq<Row>, body: Request, createdAt: string, json: Response -> string)
    requires !Truthy(body.action)
    ensures var r := DoPost(sheet, body, createdAt, json);
      Outcome(r.sheet, r.response) == AddRsvp(sheet, body.form, createdAt)
  {
  }

  /** Submitting an acceptance for three guests to an empty sheet gives one
      accepted RSVP and three guests. */
  lemma AcceptScenario(name: string, email: string, createdAt: string)
    requires !AllSpace(name) && email != ""
    ensures var data := Submission(Some(name), Some(email), Some(JoyfullyAccept), Some(3), None, None);
      GetRsvps(AddRsvp([], data, createdAt).sheet).stats == Stats(1, 1, 0, 3)
  {
    var data := Submission(Some(name), Some(email), Some(JoyfullyAccept), Some(3), None, None);
    var after := AddRsvp([], data, createdAt).sheet;
    assert after == [] + [after[0]];
    AppendThenList([], after[0]);
  }

  /** A decline is listed with no guests, whatever count was sent. */
  lemma DeclineScenario(name: string, email: string, guests: Option<int>, createdAt: string)
    requires !AllSpace(name) && email != ""
    ensures var data := Submission(Some(name), Some(email), Some(RegretfullyDecline), guests, None, None);
      var listed := GetRsvps(AddRsvp([], data, createdAt).sheet).rsvps;
      |listed| == 1 && listed[0].guests == 0
  {
    var data := Submission(Some(name), Some(email), Some(RegretfullyDecline), guests, None, None);
    var after := AddRsvp([], data, createdAt).sheet;
    assert after == [] + [after[0]];
    AppendThenList([], after[0]);
  }

  /** A submission without an email is refused and stores nothing. */
  lemma MissingEmailScenario(sheet: seq<Row>, name: string, createdAt: string)
    ensures var data := Submission(Some(name), None, Some(JoyfullyAccept), None, None, None);
      AddRsvp(sheet, data, createdAt) == Outcome(sheet, Failed(MissingFields))
  {
  }
}
