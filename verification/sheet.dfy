/** The spreadsheet-backed RSVP store (the Apps Script web app). The sheet is
    the sequence of data rows below the header row; every operation takes
    the sheet and returns the new sheet together with its response. */
module Sheet {
  import opened Text
  import opened Rsvp

  /** The sheet after an operation, and what the operation answered. */
  datatype Outcome = Outcome(sheet: seq<Row>, response: Response)

  /** The parameters of a request: the `action` discriminator, the JSONP
      `callback`, the already-parsed `id` (None when absent or empty) and the
      submission fields. A POST body is decoded into the same shape. */
  datatype Request = Request(
    action: Option<string>,
    callback: Option<string>,
    id: Option<int>,
    form: Submission)

  /** A request's effect on the sheet, its response, and the text sent back. */
  datatype Served = Served(sheet: seq<Row>, response: Response, text: string)

  /** The largest non-blank id, or None when every ID cell is blank. */
  function MaxId(sheet: seq<Row>): (m: Option<int>)
    ensures m.None? <==> forall i :: 0 <= i < |sheet| ==> sheet[i].id.None?
    ensures m.Some? ==> exists i :: 0 <= i < |sheet| && sheet[i].id == m
    ensures m.Some? ==> forall i :: 0 <= i < |sheet| && sheet[i].id.Some? ==> sheet[i].id.value <= m.value
  {
    if |sheet| == 0 then None
    else
      var rest := MaxId(sheet[1..]);
      match sheet[0].id
      case None => rest
      case Some(k) => if rest.Some? && rest.value > k then rest else Some(k)
  }

  /** `getNextId`: one more than the largest id present, or 1 when the
      sheet has no rows or only blank ids. */
  function NextId(sheet: seq<Row>): (next: int)
    ensures forall i :: 0 <= i < |sheet| && sheet[i].id.Some? ==> sheet[i].id.value < next
    ensures (forall i :: 0 <= i < |sheet| ==> sheet[i].id.None?) ==> next == 1
    ensures (exists i :: 0 <= i < |sheet| && sheet[i].id.Some?) ==>
              exists i :: 0 <= i < |sheet| && sheet[i].id == Some(next - 1)
  {
    if |sheet| == 0 then 1
    else
      match MaxId(sheet)
      case None => 1
      case Some(m) => m + 1
  }

  /** `addRsvp`: validate, normalise and append one row. */
  function AddRsvp(sheet: seq<Row>, data: Submission, createdAt: string): (r: Outcome)
    ensures !HasRequiredFields(data) ==> r == Outcome(sheet, Failed(MissingFields))
    ensures HasRequiredFields(data) && !Admissible(data) ==> r == Outcome(sheet, Failed(InvalidAttendance))
    ensures Admissible(data) ==>
      && |r.sheet| == |sheet| + 1
      && r.sheet[..|sheet|] == sheet
      && r.response == Saved(NextId(sheet), SavedMessage)
      && (forall i :: 0 <= i < |sheet| && sheet[i].id.Some? ==> sheet[i].id.value < r.response.id)
      && var row := r.sheet[|sheet|];
         && row.id == Some(r.response.id)
         && row.name == Trim(data.name.value)
         && row.email == Trim(data.email.value)
         && row.attendance == data.attendance.value
         && FollowsGuestRule(row.attendance, data.guests, row.guests)
         && row.dietary == Trim(OrEmpty(data.dietary))
         && row.message == Trim(OrEmpty(data.message))
         && row.createdAt == createdAt
  {
    if !Truthy(data.name) || !Truthy(data.email) || !Truthy(data.attendance) then
      Outcome(sheet, Failed(MissingFields))
    else if data.attendance.value != JoyfullyAccept && data.attendance.value != RegretfullyDecline then
      Outcome(sheet, Failed(InvalidAttendance))
    else
      var attendance := data.attendance.value;
      var guestCount := if attendance == JoyfullyAccept then OrOne(data.guests) else 0;
      var id := NextId(sheet);
      var row := Row(
        Some(id),
        Trim(Or(data.name, "")),
        Trim(Or(data.email, "")),
        attendance,
        guestCount,
        Trim(Or(data.dietary, "")),
        Trim(Or(data.message, "")),
        createdAt);
      Outcome(sheet + [row], Saved(id, SavedMessage))
  }

  /** The rows `getRsvps` lists: those with a non-empty Name cell, scanned
      from the last row of the sheet to the first. */
  function Visible(sheet: seq<Row>): (rows: seq<Row>)
    ensures |rows| <= |sheet|
  {
    if |sheet| == 0 then []
    else Visible(sheet[1..]) + (if sheet[0].name != "" then [sheet[0]] else [])
  }

  /** The running totals of the `getRsvps` loop over the listed rows: every
      row that does not accept counts as declined, and only accepting rows
      add guests. */
  function Tally(rows: seq<Row>): (s: Stats)
    ensures s.total == |rows|
    ensures s.accepted == CountAttendance(rows, JoyfullyAccept)
    ensures s.accepted + s.declined == s.total
    ensures s.totalGuests == AcceptedGuests(rows)
  {
    if |rows| == 0 then Stats(0, 0, 0, 0)
    else
      var s := Tally(rows[..|rows| - 1]);
      var row := rows[|rows| - 1];
      if row.attendance == JoyfullyAccept then
        Stats(s.total + 1, s.accepted + 1, s.declined, s.totalGuests + row.guests)
      else
        Stats(s.total + 1, s.accepted, s.declined + 1, s.totalGuests)
  }

  /** `getRsvps`: the listed rows, newest first, and their statistics. */
  function GetRsvps(sheet: seq<Row>): (r: Response)
    ensures r.Listing?
    ensures r.rsvps == Visible(sheet)
    ensures r.stats.total == |r.rsvps|
    ensures r.stats.accepted == CountAttendance(r.rsvps, JoyfullyAccept)
    ensures r.stats.declined == |r.rsvps| - CountAttendance(r.rsvps, JoyfullyAccept)
    ensures r.stats.totalGuests == AcceptedGuests(r.rsvps)
    ensures sheet == [] ==> r == Listing(Stats(0, 0, 0, 0), [])
  {
    if |sheet| == 0 then Listing(Stats(0, 0, 0, 0), [])
    else
      var rows := Visible(sheet);
      Listing(Tally(rows), rows)
  }

  /** The loop of `getRsvps` as written: walk the rows from last to first,
      skip empty names, push each row and update the counters. */
  method ScanRsvps(sheet: seq<Row>) returns (r: Response)
    ensures r == GetRsvps(sheet)
  {
    if |sheet| == 0 {
      return Listing(Stats(0, 0, 0, 0), []);
    }
    var rsvps: seq<Row> := [];
    var accepted, declined, totalGuests := 0, 0, 0;
    var i := |sheet| - 1;
    while i >= 0
      invariant -1 <= i < |sheet|
      invariant rsvps == Visible(sheet[i + 1..])
      invariant Tally(rsvps) == Stats(|rsvps|, accepted, declined, totalGuests)
    {
      var row := sheet[i];
      assert sheet[i..][1..] == sheet[i + 1..] && sheet[i..][0] == row;
      if row.name != "" {
        assert (rsvps + [row])[..|rsvps|] == rsvps;
        rsvps := rsvps + [row];
        if row.attendance == JoyfullyAccept {
          accepted := accepted + 1;
          totalGuests := totalGuests + row.guests;
        } else {
          declined := declined + 1;
        }
      }
      i := i - 1;
    }
    assert sheet[0..] == sheet;
    r := Listing(Stats(|rsvps|, accepted, declined, totalGuests), rsvps);
  }

  /** The guestbook entry `getComments` makes of a row: its name, its
      trimmed message and its creation time. */
  function CommentOf(row: Row): Comment {
    Comment(row.name, Trim(row.message), row.createdAt)
  }

  predicate HasMessage(row: Row) {
    Trim(row.message) != ""
  }

  /** The entries of `getComments`: one per row whose trimmed message is not
      empty, whatever its name, scanned from the last row to the first. */
  function CommentsOf(sheet: seq<Row>): (cs: seq<Comment>)
    ensures |cs| <= |sheet|
  {
    if |sheet| == 0 then []
    else CommentsOf(sheet[1..]) + (if HasMessage(sheet[0]) then [CommentOf(sheet[0])] else [])
  }

  /** `getComments`. */
  function GetComments(sheet: seq<Row>): (r: Response)
    ensures r.CommentList?
    ensures r.comments == CommentsOf(sheet)
  {
    if |sheet| == 0 then CommentList([]) else CommentList(CommentsOf(sheet))
  }

  /** Index of the first row whose ID cell holds `k`. */
  function FirstWithId(sheet: seq<Row>, k: int): (i: Option<nat>)
    ensures i.None? <==> forall j :: 0 <= j < |sheet| ==> sheet[j].id != Some(k)
    ensures i.Some? ==> i.value < |sheet| && sheet[i.value].id == Some(k)
    ensures i.Some? ==> forall j :: 0 <= j < i.value ==> sheet[j].id != Some(k)
  {
    if |sheet| == 0 then None
    else if sheet[0].id == Some(k) then Some(0)
    else
      match FirstWithId(sheet[1..], k)
      case None => None
      case Some(j) => Some(j + 1)
  }

  /** `deleteRsvp`: remove the first row carrying the id, and only it. */
  function DeleteRsvp(sheet: seq<Row>, id: Option<int>): (r: Outcome)
    ensures id.None? ==> r == Outcome(sheet, Failed(IdRequired))
    ensures id.Some? && (forall j :: 0 <= j < |sheet| ==> sheet[j].id != id) ==>
              r == Outcome(sheet, Failed(NotFound))
    ensures id.Some? && (exists j :: 0 <= j < |sheet| && sheet[j].id == id) ==>
              && r.response == Deleted(DeletedMessage)
              && exists i :: 0 <= i < |sheet| && sheet[i].id == id
                   && (forall j :: 0 <= j < i ==> sheet[j].id != id)
                   && r.sheet == sheet[..i] + sheet[i + 1..]
  {
    if id.None? then Outcome(sheet, Failed(IdRequired))
    else if |sheet| == 0 then Outcome(sheet, Failed(NotFound))
    else
      match FirstWithId(sheet, id.value)
      case None => Outcome(sheet, Failed(NotFound))
      case Some(i) => Outcome(sheet[..i] + sheet[i + 1..], Deleted(DeletedMessage))
  }

  /** The JSONP wrapping: with a non-empty callback the JSON text becomes
      the argument of a call to it; otherwise the JSON text goes out bare. */
  function Jsonp(callback: Option<string>, json: string): (text: string)
    ensures !Truthy(callback) ==> text == json
    ensures Truthy(callback) ==>
      var cb := callback.value;
      && |text| == |cb| + |json| + 3
      && text[..|cb|] == cb
      && text[|cb|] == '('
      && text[|cb| + 1..|cb| + 1 + |json|] == json
      && text[|cb| + 1 + |json|..] == ");"
  {
    if Truthy(callback) then callback.value + "(" + json + ");" else json
  }

  /** `doGet`: the action defaults to "rsvps"; "comments", "rsvp" and
      "delete" select their operation and anything else lists the RSVPs.
      `json` stands for `JSON.stringify`. */
  function DoGet(sheet: seq<Row>, req: Request, createdAt: string, json: Response -> string): (r: Served)
    ensures var action := Or(req.action, "rsvps");
      && (action == "comments" ==> r.sheet == sheet && r.response == GetComments(sheet))
      && (action == "rsvp" ==> Outcome(r.sheet, r.response) == AddRsvp(sheet, req.form, createdAt))
      && (action == "delete" ==> Outcome(r.sheet, r.response) == DeleteRsvp(sheet, req.id))
      && (action !in {"comments", "rsvp", "delete"} ==> r.sheet == sheet && r.response == GetRsvps(sheet))
    ensures r.text == Jsonp(req.callback, json(r.response))
  {
    var action := Or(req.action, "rsvps");
    var o :=
      if action == "comments" then Outcome(sheet, GetComments(sheet))
      else if action == "rsvp" then AddRsvp(sheet, req.form, createdAt)
      else if action == "delete" then DeleteRsvp(sheet, req.id)
      else Outcome(sheet, GetRsvps(sheet));
    Served(o.sheet, o.response, Jsonp(req.callback, json(o.response)))
  }

  /** `doPost`: the action defaults to "rsvp"; "delete" deletes and every
      other action submits. The reply is never JSONP-wrapped. */
  function DoPost(sheet: seq<Row>, body: Request, createdAt: string, json: Response -> string): (r: Served)
    ensures Or(body.action, "rsvp") == "delete" ==> Outcome(r.sheet, r.response) == DeleteRsvp(sheet, body.id)
    ensures Or(body.action, "rsvp") != "delete" ==> Outcome(r.sheet, r.response) == AddRsvp(sheet, body.form, createdAt)
    ensures r.text == json(r.response)
  {
    var action := Or(body.action, "rsvp");
    var o := if action == "delete" then DeleteRsvp(sheet, body.id) else AddRsvp(sheet, body.form, createdAt);
    Served(o.sheet, o.response, json(o.response))
  }
}
